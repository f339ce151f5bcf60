/**
  The order of the joins that `parseRelated` of `client/orm/db_tables.go` plans, for any schema:
  no join refers to a later table exactly when no two relation paths share a name.
 */
module JoinOrder {
  import opened Text
  import opened JoinPlan

  /** A path of relations that `parseRelated` accepts, spelled by field names. */
  ghost predicate RelationPath(sch: Schema, root: Model, names: seq<string>) {
    if names == [] then true
    else
      var n, last := |names| - 1, LastField(sch, root, names);
      && RelationPath(sch, root, names[..n])
      && last.Some? && last.value.rel && !last.value.m2m && last.value.name == names[n]
  }

  /** The plan after some paths were walked one after the other. */
  ghost function PlanOf(sch: Schema, root: Model, skipEnd: bool, walks: seq<seq<string>>): Plan {
    if walks == [] then EMPTY
    else
      var n := |walks| - 1;
      Walked(sch, root, skipEnd, PlanOf(sch, root, skipEnd, walks[..n]), walks[n], |walks[n]|).0
  }

  /** Every join refers to T0 or to a table before it. */
  ghost predicate Ordered(p: Plan) {
    forall i :: 0 <= i < |p.tables| && p.tables[i].jtl.Some? ==> p.tables[i].jtl.value < i
  }

  ghost predicate AllRelated(sch: Schema, root: Model, walks: seq<seq<string>>) {
    forall i :: 0 <= i < |walks| ==> RelationPath(sch, root, walks[i])
  }

  ghost predicate NamesDiffer(sch: Schema, root: Model) {
    forall a, b :: IsNamed(sch, root, a) && IsNamed(sch, root, b) && PathName(a) == PathName(b) ==> a == b
  }

  ghost predicate IsNamed(sch: Schema, root: Model, names: seq<string>) { names != [] && RelationPath(sch, root, names) }

  lemma {:induction false} PrefixRelated(sch: Schema, root: Model, names: seq<string>, n: nat)
    requires RelationPath(sch, root, names) && n <= |names|
    ensures RelationPath(sch, root, names[..n])
    ensures n > 0 ==> LastField(sch, root, names[..n]).Some?
    decreases |names|
  {
    if n < |names| {
      var front := names[..|names| - 1];
      PrefixRelated(sch, root, front, n);
      assert front[..n] == names[..n];
    } else {
      assert names[..n] == names;
    }
  }

  // ---- different names keep the order ----

  /** Table `i` is the one of its path, and joins the table of the path before it. */
  ghost predicate NeatNode(sch: Schema, root: Model, p: Plan, i: nat)
    requires i < |p.tables|
  {
    var node := p.tables[i];
    && IsNamed(sch, root, node.names)
    && PathName(node.names) in p.tablesM && p.tablesM[PathName(node.names)] == i
    && LinksTo(p, node.names[..|node.names| - 1], node.jtl, i)
  }

  /** `jtl` is the table of `path`, before `bound`. */
  ghost predicate LinksTo(p: Plan, path: seq<string>, jtl: Option<nat>, bound: nat) {
    if path == [] then jtl == None
    else jtl.Some? && jtl.value < bound && jtl.value < |p.tables| && p.tables[jtl.value].names == path
  }

  ghost predicate Neat(sch: Schema, root: Model, p: Plan) {
    && (forall i: nat :: i < |p.tables| ==> NeatNode(sch, root, p, i))
    && (forall key <- p.tablesM :: p.tablesM[key] < |p.tables| && PathName(p.tables[p.tablesM[key]].names) == key)
  }

  lemma NewNeat(sch: Schema, root: Model, p: Plan, path: seq<string>, mi: Model, fi: FieldInfo, inner: bool, jtl: Option<nat>)
    requires Neat(sch, root, p) && IsNamed(sch, root, path) && PathName(path) !in p.tablesM
    requires LinksTo(p, path[..|path| - 1], jtl, |p.tables|)
    ensures var p' := Link(NewNode(p, path, mi, fi, inner), |p.tables|, jtl);
            Neat(sch, root, p') && p'.tables[|p.tables|].names == path
  {
    var p' := Link(NewNode(p, path, mi, fi, inner), |p.tables|, jtl);
    assert p'.tables[..|p.tables|] == p.tables;
    forall i: nat | i < |p'.tables|
      ensures NeatNode(sch, root, p', i)
    {
      if i < |p.tables| {
        StaysNeat(sch, root, p, p', i);
      }
    }
  }

  lemma StaysNeat(sch: Schema, root: Model, p: Plan, p': Plan, i: nat)
    requires Neat(sch, root, p) && i < |p.tables| <= |p'.tables| && p'.tables[..|p.tables|] == p.tables
    requires forall key <- p.tablesM :: key in p'.tablesM && p'.tablesM[key] == p.tablesM[key]
    ensures NeatNode(sch, root, p', i)
  {
    assert NeatNode(sch, root, p, i);
    assert forall k :: 0 <= k < |p.tables| ==> p'.tables[k] == p'.tables[..|p.tables|][k];
  }

  lemma OldNeat(sch: Schema, root: Model, p: Plan, path: seq<string>, mi: Model, fi: FieldInfo, inner: bool, jtl: Option<nat>)
    requires Neat(sch, root, p) && IsNamed(sch, root, path) && PathName(path) in p.tablesM && NamesDiffer(sch, root)
    requires LinksTo(p, path[..|path| - 1], jtl, |p.tables|)
    ensures var k := p.tablesM[PathName(path)];
      var p' := Link(SetNode(p, path, mi, fi, inner).0, k, jtl);
      k < |p.tables| && Neat(sch, root, p') && p'.tables[k].names == path
  {
    var k := p.tablesM[PathName(path)];
    SameParent(sch, root, p, path, jtl);
    SameShape(sch, root, p, Link(SetNode(p, path, mi, fi, inner).0, k, jtl));
  }

  /** The table of a known path already joins the table before it. */
  lemma SameParent(sch: Schema, root: Model, p: Plan, path: seq<string>, jtl: Option<nat>)
    requires Neat(sch, root, p) && IsNamed(sch, root, path) && PathName(path) in p.tablesM && NamesDiffer(sch, root)
    requires LinksTo(p, path[..|path| - 1], jtl, |p.tables|)
    ensures var k := p.tablesM[PathName(path)]; k < |p.tables| && p.tables[k].names == path && p.tables[k].jtl == jtl
  {
    var k := p.tablesM[PathName(path)];
    assert NeatNode(sch, root, p, k);
    assert p.tables[k].names == path;
    if jtl.Some? {
      assert NeatNode(sch, root, p, jtl.value) && NeatNode(sch, root, p, p.tables[k].jtl.value);
    }
  }

  lemma SameShape(sch: Schema, root: Model, p: Plan, p': Plan)
    requires Neat(sch, root, p) && p'.tablesM == p.tablesM && |p'.tables| == |p.tables|
    requires forall i :: 0 <= i < |p.tables| ==> p'.tables[i].names == p.tables[i].names && p'.tables[i].jtl == p.tables[i].jtl
    ensures Neat(sch, root, p')
  {
    forall i: nat | i < |p'.tables|
      ensures NeatNode(sch, root, p', i)
    {
      assert NeatNode(sch, root, p, i);
    }
  }

  lemma {:induction false} WalkedNeat(sch: Schema, root: Model, skipEnd: bool, p: Plan, names: seq<string>, n: nat)
    requires Neat(sch, root, p) && NamesDiffer(sch, root) && RelationPath(sch, root, names) && n <= |names|
    ensures var (q, jtl) := Walked(sch, root, skipEnd, p, names, n);
            Neat(sch, root, q) && LinksTo(q, names[..n], jtl, |q.tables|)
  {
    if n > 0 {
      WalkedNeat(sch, root, skipEnd, p, names, n - 1);
      var (q, jtl) := Walked(sch, root, skipEnd, p, names, n - 1);
      var path := names[..n];
      PrefixRelated(sch, root, names, n);
      assert path[..|path| - 1] == names[..n - 1];
      var last := LastField(sch, root, path).value;
      var inner := InnerPath(sch, root, skipEnd, path);
      if PathName(path) in q.tablesM {
        OldNeat(sch, root, q, path, last.target, last, inner, jtl);
      } else {
        NewNeat(sch, root, q, path, last.target, last, inner, jtl);
      }
    }
  }

  lemma {:induction false} PlansNeat(sch: Schema, root: Model, skipEnd: bool, walks: seq<seq<string>>)
    requires NamesDiffer(sch, root) && AllRelated(sch, root, walks)
    ensures Neat(sch, root, PlanOf(sch, root, skipEnd, walks))
  {
    if walks != [] {
      var n := |walks| - 1;
      PlansNeat(sch, root, skipEnd, walks[..n]);
      WalkedNeat(sch, root, skipEnd, PlanOf(sch, root, skipEnd, walks[..n]), walks[n], |walks[n]|);
    }
  }

  lemma NeatIsOrdered(sch: Schema, root: Model, p: Plan)
    requires Neat(sch, root, p)
    ensures Ordered(p)
  {
    forall i: nat | i < |p.tables| && p.tables[i].jtl.Some?
      ensures p.tables[i].jtl.value < i
    {
      assert NeatNode(sch, root, p, i);
    }
  }

  // ---- a shared name breaks it ----

  lemma {:induction false} NamesGrow(names: seq<string>, i: nat, j: nat)
    requires 0 < i < j <= |names|
    ensures |PathName(names[..i])| < |PathName(names[..j])|
    decreases j
  {
    var front := names[..j - 1];
    assert names[..j] == front + [names[j - 1]];
    PathNameSnoc(front, names[j - 1]);
    if i < j - 1 {
      NamesGrow(names, i, j - 1);
    }
  }

  /** The keys of a plan are names of the first `n` prefixes of `y`, or of prefixes of `x`. */
  ghost predicate KeysFrom(p: Plan, x: seq<string>, y: seq<string>, n: nat)
    requires n <= |y|
  {
    forall key <- p.tablesM ::
      || (exists i :: 0 < i <= |x| && key == PathName(x[..i]))
      || (exists i :: 0 < i <= n && key == PathName(y[..i]))
  }

  /** Walking a path from the empty plan gives it a fresh table per component. */
  lemma {:induction false} FirstWalk(sch: Schema, root: Model, skipEnd: bool, x: seq<string>, n: nat)
    requires RelationPath(sch, root, x) && n <= |x|
    ensures var p := Walked(sch, root, skipEnd, EMPTY, x, n).0;
      && |p.tables| == n && SoundMap(p) && KeysFrom(p, [], x, n)
      && (n > 0 ==> PathName(x[..n]) in p.tablesM && p.tablesM[PathName(x[..n])] == n - 1)
  {
    if n > 0 {
      FirstWalk(sch, root, skipEnd, x, n - 1);
      PrefixRelated(sch, root, x, n);
      var p := Walked(sch, root, skipEnd, EMPTY, x, n - 1).0;
      if PathName(x[..n]) in p.tablesM {
        var i :| 0 < i <= n - 1 && PathName(x[..n]) == PathName(x[..i]);
        NamesGrow(x, i, n);
      }
    }
  }

  /** The pair shares a name and no shorter prefixes do without being equal. */
  ghost predicate FirstClash(x: seq<string>, y: seq<string>) {
    && x != [] && y != [] && x != y && PathName(x) == PathName(y)
    && forall i, j :: 0 < i <= |x| && 0 < j <= |y| && i + j < |x| + |y| && PathName(x[..i]) == PathName(y[..j]) ==> x[..i] == y[..j]
  }

  /** The paths do not agree any longer than `c` components. */
  ghost predicate PartAt(x: seq<string>, y: seq<string>, c: nat) { forall i :: c < i <= |x| && i <= |y| ==> x[..i] != y[..i] }

  /** The table of `x` is at its place, and `n` components of `y` were walked since. */
  ghost predicate HoldsFirst(p: Plan, x: seq<string>, y: seq<string>, n: nat)
    requires n <= |y|
  {
    && |p.tables| >= |x| && SoundMap(p) && KeysFrom(p, x, y, n)
    && PathName(x) in p.tablesM && p.tablesM[PathName(x)] == |x| - 1
  }

  /** Behind the common part `c`, a prefix of `y` finds no table of `x`. */
  lemma FreshPrefix(p: Plan, x: seq<string>, y: seq<string>, c: nat, n: nat)
    requires FirstClash(x, y) && c < n < |y| && KeysFrom(p, x, y, n - 1)
    requires PartAt(x, y, c)
    ensures PathName(y[..n]) !in p.tablesM
  {
    if PathName(y[..n]) in p.tablesM {
      if i :| 0 < i <= n - 1 && PathName(y[..n]) == PathName(y[..i]) {
        NamesGrow(y, i, n);
      }
    }
  }

  /** The second walk: behind the common part it adds tables after those of the first. */
  lemma {:induction false} SecondWalk(sch: Schema, root: Model, skipEnd: bool, p: Plan, x: seq<string>, y: seq<string>, c: nat, n: nat)
    requires RelationPath(sch, root, y) && FirstClash(x, y) && n < |y|
    requires PartAt(x, y, c)
    requires HoldsFirst(p, x, y, 0)
    ensures var (q, jtl) := Walked(sch, root, skipEnd, p, y, n);
      && HoldsFirst(q, x, y, n)
      && (n > c && n > 0 ==> jtl.Some? && jtl.value >= |x|)
  {
    if n > 0 {
      SecondWalk(sch, root, skipEnd, p, x, y, c, n - 1);
      var (q, jtl) := Walked(sch, root, skipEnd, p, y, n - 1);
      SecondStep(sch, root, skipEnd, p, q, jtl, x, y, c, n);
    }
  }

  lemma SecondStep(sch: Schema, root: Model, skipEnd: bool, p: Plan, q: Plan, jtl: Option<nat>, x: seq<string>, y: seq<string>, c: nat, n: nat)
    requires RelationPath(sch, root, y) && FirstClash(x, y) && 0 < n < |y| && PartAt(x, y, c)
    requires (q, jtl) == Walked(sch, root, skipEnd, p, y, n - 1) && HoldsFirst(q, x, y, n - 1)
    ensures var (q', k) := Walked(sch, root, skipEnd, p, y, n);
            HoldsFirst(q', x, y, n) && (n > c ==> k.Some? && k.value >= |x|)
  {
    PrefixRelated(sch, root, y, n);
    var path := y[..n];
    var last := LastField(sch, root, path).value;
    if n > c {
      FreshPrefix(q, x, y, c, n);
    }
    HoldsOn(q, x, y, n, last.target, last, InnerPath(sch, root, skipEnd, path), jtl);
  }

  lemma HoldsOn(q: Plan, x: seq<string>, y: seq<string>, n: nat, mi: Model, fi: FieldInfo, inner: bool, jtl: Option<nat>)
    requires 0 < n <= |y| && HoldsFirst(q, x, y, n - 1)
    ensures var (q', k) := SetAndLink(q, y[..n], mi, fi, inner, jtl);
      HoldsFirst(q', x, y, n) && (PathName(y[..n]) !in q.tablesM ==> k >= |x|)
  {
  }

  /** Walking `x` and then `y` links the table of `x` to a later one. */
  lemma ClashBreaksOrder(sch: Schema, root: Model, skipEnd: bool, x: seq<string>, y: seq<string>, c: nat)
    requires RelationPath(sch, root, x) && RelationPath(sch, root, y) && FirstClash(x, y) && c < |y| - 1
    requires PartAt(x, y, c)
    ensures AllRelated(sch, root, [x, y]) && !Ordered(PlanOf(sch, root, skipEnd, [x, y]))
  {
    var p := AfterFirst(sch, root, skipEnd, x, y);
    AfterSecond(sch, root, skipEnd, p, x, y, c);
    TwoWalks(sch, root, skipEnd, x, y);
  }

  lemma AfterFirst(sch: Schema, root: Model, skipEnd: bool, x: seq<string>, y: seq<string>) returns (p: Plan)
    requires RelationPath(sch, root, x) && x != []
    ensures p == Walked(sch, root, skipEnd, EMPTY, x, |x|).0 && HoldsFirst(p, x, y, 0)
  {
    FirstWalk(sch, root, skipEnd, x, |x|);
    assert x[..|x|] == x;
    p := Walked(sch, root, skipEnd, EMPTY, x, |x|).0;
    FirstKeys(p, x, y);
  }

  lemma AfterSecond(sch: Schema, root: Model, skipEnd: bool, p: Plan, x: seq<string>, y: seq<string>, c: nat)
    requires RelationPath(sch, root, y) && FirstClash(x, y) && c < |y| - 1 && PartAt(x, y, c) && HoldsFirst(p, x, y, 0)
    ensures !Ordered(Walked(sch, root, skipEnd, p, y, |y|).0)
  {
    SecondWalk(sch, root, skipEnd, p, x, y, c, |y| - 1);
    LastLink(sch, root, skipEnd, p, x, y);
  }

  lemma FirstKeys(p: Plan, x: seq<string>, y: seq<string>)
    requires |p.tables| == |x| && SoundMap(p) && KeysFrom(p, [], x, |x|)
    requires PathName(x) in p.tablesM && p.tablesM[PathName(x)] == |x| - 1
    ensures HoldsFirst(p, x, y, 0)
  {
  }

  lemma TwoWalks(sch: Schema, root: Model, skipEnd: bool, x: seq<string>, y: seq<string>)
    ensures PlanOf(sch, root, skipEnd, [x, y])
         == Walked(sch, root, skipEnd, Walked(sch, root, skipEnd, EMPTY, x, |x|).0, y, |y|).0
  {
    assert [x, y][..1] == [x] && [x][..0] == [];
    assert PlanOf(sch, root, skipEnd, []) == EMPTY;
    assert PlanOf(sch, root, skipEnd, [x]) == Walked(sch, root, skipEnd, EMPTY, x, |x|).0;
  }

  /** The last component of `y` finds the table of `x` and links it on. */
  lemma LastLink(sch: Schema, root: Model, skipEnd: bool, p: Plan, x: seq<string>, y: seq<string>)
    requires RelationPath(sch, root, y) && x != [] && y != [] && PathName(x) == PathName(y)
    requires var (q, jtl) := Walked(sch, root, skipEnd, p, y, |y| - 1);
      && HoldsFirst(q, x, y, |y| - 1)
      && jtl.Some? && jtl.value >= |x|
    ensures !Ordered(Walked(sch, root, skipEnd, p, y, |y|).0)
  {
    PrefixRelated(sch, root, y, |y|);
    assert y[..|y|] == y;
    var (q, jtl) := Walked(sch, root, skipEnd, p, y, |y| - 1);
    var r := Walked(sch, root, skipEnd, p, y, |y|).0;
    assert r.tables[|x| - 1].jtl == jtl;
  }

  /** How long two paths agree. */
  ghost function Common(x: seq<string>, y: seq<string>): (c: nat)
    ensures c <= |x| && c <= |y| && x[..c] == y[..c]
    ensures PartAt(x, y, c)
  {
    if x == [] || y == [] || x[0] != y[0] then
      assert forall i :: 0 < i <= |x| && i <= |y| ==> x[..i][0] == x[0] && y[..i][0] == y[0];
      0
    else
      var c := Common(x[1..], y[1..]);
      assert x[..c + 1] == [x[0]] + x[1..][..c] && y[..c + 1] == [y[0]] + y[1..][..c];
      assert forall i :: c + 1 < i <= |x| && i <= |y| ==> x[..i][1..] == x[1..][..i - 1] && y[..i][1..] == y[1..][..i - 1];
      c + 1
  }

  /** Clashing paths do not differ in their last component only. */
  lemma ClashIsDeep(x: seq<string>, y: seq<string>)
    requires FirstClash(x, y)
    ensures Common(x, y) < |x| - 1 || Common(x, y) < |y| - 1
  {
    var c := Common(x, y);
    assert x[..|x|] == x && y[..|y|] == y;
    if c == |x| {
      NamesGrow(y, c, |y|);
    } else if c == |y| {
      NamesGrow(x, c, |x|);
    } else if c == |x| - 1 == |y| - 1 {
      assert x == x[..c] + [x[c]] && y == y[..c] + [y[c]];
      PathNameSnoc(x[..c], x[c]);
      PathNameSnoc(y[..c], y[c]);
      SameTail(PathName(x[..c]) + "__", x[c], y[c]);
    }
  }

  lemma SameTail(a: string, b: string, c: string)
    requires a + b == a + c
    ensures b == c
  {
    assert b == (a + b)[|a|..] && c == (a + c)[|a|..];
  }

  lemma ClashMirrored(x: seq<string>, y: seq<string>)
    requires FirstClash(x, y)
    ensures FirstClash(y, x)
  {
  }

  /** Two paths that share a name contain a first clash. */
  lemma {:induction false} SomeClash(sch: Schema, root: Model, x: seq<string>, y: seq<string>) returns (a: seq<string>, b: seq<string>)
    requires RelationPath(sch, root, x) && RelationPath(sch, root, y) && x != [] && y != [] && x != y && PathName(x) == PathName(y)
    ensures RelationPath(sch, root, a) && RelationPath(sch, root, b) && FirstClash(a, b)
    decreases |x| + |y|
  {
    if i, j :| 0 < i <= |x| && 0 < j <= |y| && i + j < |x| + |y| && PathName(x[..i]) == PathName(y[..j]) && x[..i] != y[..j] {
      PrefixRelated(sch, root, x, i);
      PrefixRelated(sch, root, y, j);
      a, b := SomeClash(sch, root, x[..i], y[..j]);
    } else {
      a, b := x, y;
    }
  }

  lemma SharedNameBreaks(sch: Schema, root: Model, skipEnd: bool) returns (walks: seq<seq<string>>)
    requires !NamesDiffer(sch, root)
    ensures AllRelated(sch, root, walks) && !Ordered(PlanOf(sch, root, skipEnd, walks))
  {
    var x, y :| IsNamed(sch, root, x) && IsNamed(sch, root, y) && PathName(x) == PathName(y) && x != y;
    var a, b := SomeClash(sch, root, x, y);
    ClashIsDeep(a, b);
    var c := Common(a, b);
    if c < |b| - 1 {
      ClashBreaksOrder(sch, root, skipEnd, a, b, c);
      walks := [a, b];
    } else {
      ClashMirrored(a, b);
      ClashBreaksOrder(sch, root, skipEnd, b, a, c);
      walks := [b, a];
    }
  }

  /** Whatever related paths are walked, in whatever order, every join refers to T0 or an earlier
      table: exactly when no two relation paths of the schema share a name. */
  lemma OrderedIff(sch: Schema, root: Model, skipEnd: bool)
    ensures (forall walks :: AllRelated(sch, root, walks) ==> Ordered(PlanOf(sch, root, skipEnd, walks))) <==> NamesDiffer(sch, root)
  {
    if NamesDiffer(sch, root) {
      forall walks | AllRelated(sch, root, walks)
        ensures Ordered(PlanOf(sch, root, skipEnd, walks))
      {
        PlansNeat(sch, root, skipEnd, walks);
        NeatIsOrdered(sch, root, PlanOf(sch, root, skipEnd, walks));
      }
    } else {
      var walks := SharedNameBreaks(sch, root, skipEnd);
    }
  }

  /** The names of a related path, in any spelling, are a relation path. */
  lemma {:induction false} RelatedIsPath(sch: Schema, root: Model, names: seq<string>, m: Model, exs: seq<string>)
    requires sch.Valid() && RelatedOk(sch, m, exs) && RelationPath(sch, root, names) && ModelAfter(sch, root, names) == Some(m)
    ensures RelationPath(sch, root, names + RelatedNames(sch, m, exs))
    decreases |exs|
  {
    if exs == [] {
      assert names + [] == names;
    } else {
      var fi := sch.GetByAny(m, exs[0]).value;
      var next := names + [fi.name];
      assert next[..|names|] == names;
      PathStep(sch, root, false, names, m, exs[0], fi);
      RelatedIsPath(sch, root, next, fi.target, exs[1..]);
      assert names + ([fi.name] + RelatedNames(sch, fi.target, exs[1..])) == next + RelatedNames(sch, fi.target, exs[1..]);
    }
  }

  lemma SameOrder(p: Plan, q: Plan)
    requires SameJoins(p, q)
    ensures Ordered(p) <==> Ordered(q)
  {
  }

  lemma {:induction false} SameWalk(sch: Schema, root: Model, skipEnd: bool, p: Plan, q: Plan, names: seq<string>, n: nat)
    requires n <= |names| && SameJoins(p, q)
    ensures var (a, i) := Walked(sch, root, skipEnd, p, names, n);
      var (b, j) := Walked(sch, root, skipEnd, q, names, n);
      SameJoins(a, b) && i == j
  {
    if n > 0 {
      SameWalk(sch, root, skipEnd, p, q, names, n - 1);
      var (a, i) := Walked(sch, root, skipEnd, p, names, n - 1);
      var (b, _) := Walked(sch, root, skipEnd, q, names, n - 1);
      var path := names[..n];
      var last := LastField(sch, root, path);
      if last.Some? {
        var mi, fi, inner := last.value.target, last.value, InnerPath(sch, root, skipEnd, path);
        var (b', k) := SetAndLink(b, path, mi, fi, inner, i);
        SameVisits(a, b, b', k, path, mi, fi, inner, mi, fi, inner, i);
      }
    }
  }

  /** `parseRelated` on requested paths it accepts: the joins are those of the walks, so they are
      ordered whenever no two relation paths share a name. */
  method PlanRelated(sch: Schema, root: Model, skipEnd: bool, paths: seq<seq<string>>) returns (t: DbTables)
    requires sch.Valid() && forall i :: 0 <= i < |paths| ==> RelatedOk(sch, root, paths[i])
    ensures exists walks :: AllRelated(sch, root, walks) && |walks| == |paths| && SameJoins(PlanOf(sch, root, skipEnd, walks), t.P())
    ensures NamesDiffer(sch, root) ==> Ordered(t.P())
  {
    t := new DbTables(sch, root, skipEnd);
    ghost var walks: seq<seq<string>> := [];
    for i := 0 to |paths|
      invariant t.Valid() && t.sch == sch && t.root == root && t.skipEnd == skipEnd
      invariant AllRelated(sch, root, walks) && |walks| == i && SameJoins(PlanOf(sch, root, skipEnd, walks), t.P())
    {
      ghost var before := t.P();
      var ok := t.WalkRelated(paths[i]);
      ghost var names := RelatedNames(sch, root, paths[i]);
      RelatedIsPath(sch, root, [], root, paths[i]);
      assert [] + names == names;
      SameWalk(sch, root, skipEnd, PlanOf(sch, root, skipEnd, walks), before, names, |names|);
      assert (walks + [names])[..i] == walks;
      walks := walks + [names];
    }
    OrderedIff(sch, root, skipEnd);
    SameOrder(PlanOf(sch, root, skipEnd, walks), t.P());
  }
}
