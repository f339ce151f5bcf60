/**
  The join plan of a query: `dbTables` of `client/orm/db_tables.go`.  A pointer to a table
  node is its position in the list of tables.
 */
module JoinPlan {
  import opened Text

  type Model = string

  /** The parts of `models.FieldInfo` the planner looks at. */
  datatype FieldInfo = FieldInfo(
    name: string,
    rel: bool,               // Rel
    reverse: bool,           // Reverse
    nullable: bool,          // Null
    m2m: bool,               // FieldType == RelManyToMany
    pk: bool,                // Pk
    inThrough: bool,         // Mi.IsThrough
    target: Model,           // RelModelInfo
    through: Model,          // RelThroughModelInfo
    owner: Model)            // ReverseFieldInfo.Mi
  {
    predicate IsRel() { rel || reverse }

    /** The model a path stands at after this field. */
    function Next(current: Model): Model {
      if rel then (if m2m then through else target) else if reverse then owner else current
    }
  }

  /** `lookup` is `Fields.GetByAny`: a field is found by its name and by other spellings.
      `rels` is `Fields.FieldsRel`, and `through` holds the models with `IsThrough`. */
  datatype Schema = Schema(lookup: map<(Model, string), FieldInfo>, rels: map<Model, seq<FieldInfo>>, through: set<Model>)
  {
    function GetByAny(m: Model, ex: string): Option<FieldInfo> {
      if (m, ex) in lookup then Some(lookup[(m, ex)]) else None
    }

    function FieldsRel(m: Model): seq<FieldInfo> { if m in rels then rels[m] else [] }

    /** Fields have names and are found by them, and know whether their model is a many-to-many
        table; `FieldsRel` lists relations of the model. */
    ghost predicate Valid() {
      && (forall k <- lookup :: lookup[k].name != [] && GetByAny(k.0, lookup[k].name) == Some(lookup[k]))
      && (forall k <- lookup :: lookup[k].inThrough == (k.0 in through))
      && (forall m <- rels :: forall fi <- rels[m] :: fi.rel && GetByAny(m, fi.name) == Some(fi))
    }
  }

  /** `strings.Join(names, ExprSep)`. */
  function PathName(names: seq<string>): string {
    if names == [] then [] else if |names| == 1 then names[0] else names[0] + "__" + PathName(names[1..])
  }

  // ---- what a path denotes ----

  ghost function ModelAfter(sch: Schema, root: Model, names: seq<string>): Option<Model> {
    if names == [] then Some(root)
    else
      var n := |names| - 1;
      match ModelAfter(sch, root, names[..n])
      case None => None
      case Some(m) =>
        match sch.GetByAny(m, names[n]) case None => None case Some(fi) => Some(fi.Next(m))
  }

  /** The last field of a path. */
  ghost function LastField(sch: Schema, root: Model, names: seq<string>): Option<FieldInfo>
    requires names != []
  {
    var n := |names| - 1;
    match ModelAfter(sch, root, names[..n]) case None => None case Some(m) => sch.GetByAny(m, names[n])
  }

  /** No nullable relation on the path, and not planning a deletion. */
  ghost predicate InnerPath(sch: Schema, root: Model, skipEnd: bool, names: seq<string>) {
    if names == [] then true
    else
      var n, last := |names| - 1, LastField(sch, root, names);
      InnerPath(sch, root, skipEnd, names[..n]) && (last.Some? && last.value.IsRel() ==> !last.value.nullable && !skipEnd)
  }

  /** The longest proper prefix that ends in a relation; empty stands for T0. */
  ghost function ParentPath(sch: Schema, root: Model, names: seq<string>): seq<string> {
    if |names| <= 1 then []
    else
      var p := names[..|names| - 1];
      var last := LastField(sch, root, p);
      if last.Some? && last.value.IsRel() then p else ParentPath(sch, root, p)
  }

  ghost predicate JoinPath(sch: Schema, root: Model, names: seq<string>) {
    names != [] && ModelAfter(sch, root, names).Some? && LastField(sch, root, names).value.IsRel()
  }

  /** Every component is the name of its field, as the walks append it. */
  ghost predicate Spelled(sch: Schema, root: Model, names: seq<string>) {
    if names == [] then true
    else
      var n, last := |names| - 1, LastField(sch, root, names);
      Spelled(sch, root, names[..n]) && last.Some? && last.value.name == names[n]
  }

  /** The paths that get a table. */
  ghost predicate TablePath(sch: Schema, root: Model, names: seq<string>) {
    Spelled(sch, root, names) && JoinPath(sch, root, names)
  }

  /** No two relation paths share a name. */
  ghost predicate Unambiguous(sch: Schema, root: Model) {
    forall a :: TablePath(sch, root, a) ==> OwnName(sch, root, a)
  }

  /** No other relation path has the name of `a`. */
  ghost predicate OwnName(sch: Schema, root: Model, a: seq<string>) {
    forall b :: TablePath(sch, root, b) && PathName(a) == PathName(b) ==> a == b
  }

  // ---- the name of a path determines the path ----

  /** A name that cannot blur the "__" between path components. */
  ghost predicate Clean(name: string) {
    && name != [] && name[0] != '_' && name[|name| - 1] != '_'
    && forall i :: 0 <= i < |name| - 1 ==> !(name[i] == '_' && name[i + 1] == '_')
  }

  lemma {:induction false} SpelledIsClean(sch: Schema, root: Model, names: seq<string>)
    requires forall k <- sch.lookup :: Clean(sch.lookup[k].name)
    requires Spelled(sch, root, names)
    ensures forall n <- names :: Clean(n)
  {
    if names != [] {
      var n := |names| - 1;
      SpelledIsClean(sch, root, names[..n]);
      assert (ModelAfter(sch, root, names[..n]).value, names[n]) in sch.lookup;
      assert names == names[..n] + [names[n]];
    }
  }

  /** With clean field names, no two relation paths share a name. */
  lemma CleanIsUnambiguous(sch: Schema, root: Model)
    requires forall k <- sch.lookup :: Clean(sch.lookup[k].name)
    ensures Unambiguous(sch, root)
  {
    forall a, b | TablePath(sch, root, a) && TablePath(sch, root, b) && PathName(a) == PathName(b)
      ensures a == b
    {
      SpelledIsClean(sch, root, a);
      SpelledIsClean(sch, root, b);
      PathNameInjective(a, b);
    }
    forall a | TablePath(sch, root, a)
      ensures OwnName(sch, root, a)
    {
    }
  }

  lemma {:induction false} PathNameInjective(a: seq<string>, b: seq<string>)
    requires a != [] && b != [] && (forall n <- a :: Clean(n)) && (forall n <- b :: Clean(n))
    requires PathName(a) == PathName(b)
    ensures a == b
  {
    HeadsAgree(a, b);
    HeadsAgree(b, a);
    assert a[0] == PathName(a)[..|a[0]|] && b[0] == PathName(b)[..|b[0]|];
    if |a| > 1 {
      assert PathName(a)[|a[0]| + 2..] == PathName(a[1..]);
      assert PathName(b)[|b[0]| + 2..] == PathName(b[1..]);
      PathNameInjective(a[1..], b[1..]);
      assert a == [a[0]] + a[1..] && b == [b[0]] + b[1..];
    } else {
      assert a == [a[0]] && b == [b[0]];
    }
  }

  lemma HeadsAgree(a: seq<string>, b: seq<string>)
    requires a != [] && b != [] && Clean(a[0]) && Clean(b[0]) && PathName(a) == PathName(b)
    ensures |b[0]| <= |a[0]|
    ensures |a[0]| == |b[0]| ==> (|a| == 1 <==> |b| == 1)
  {
    NameStarts(a);
    NameStarts(b);
    var s, k := PathName(a), |a[0]|;
    assert |a| > 1 ==> s[k] == '_' && s[k + 1] == '_';
    assert forall i :: 0 <= i < |b[0]| ==> s[i] == b[0][i];
  }

  /** A path name is its first component, or goes on with the separator. */
  lemma NameStarts(a: seq<string>)
    requires a != []
    ensures var s, k := PathName(a), |a[0]|;
      && k <= |s| && s[..k] == a[0] && (forall i :: 0 <= i < k ==> s[i] == a[0][i])
      && (if |a| == 1 then k == |s| else k + 2 <= |s| && s[k] == '_' && s[k + 1] == '_')
  {
    if |a| > 1 {
      var s, k := a[0] + ("__" + PathName(a[1..])), |a[0]|;
      assert PathName(a) == s;
      assert s[k] == "__"[0] && s[k + 1] == "__"[1];
    }
  }

  // ---- the plan and its invariant ----

  datatype Node = Node(
    id: nat,
    names: seq<string>,
    sel: bool,
    inner: bool,
    mi: Model,
    fi: FieldInfo,
    jtl: Option<nat>)   // the table this one joins to; None is T0

  datatype Plan = Plan(tables: seq<Node>, tablesM: map<string, nat>)

  /** `dbTable.index`. */
  function Alias(node: Node): string { "T" + Itoa(node.id) }

  ghost predicate JoinsTo(p: Plan, parent: seq<string>, jtl: Option<nat>, bound: nat) {
    if parent == [] then jtl == None
    else jtl.Some? && jtl.value < bound && jtl.value < |p.tables| && p.tables[jtl.value].names == parent
  }

  ghost predicate ValidNode(sch: Schema, root: Model, skipEnd: bool, p: Plan, i: nat)
    requires i < |p.tables|
  {
    var node := p.tables[i];
    && node.id == i + 1
    && PathName(node.names) in p.tablesM && p.tablesM[PathName(node.names)] == i
    && TablePath(sch, root, node.names)
    && node.inner == InnerPath(sch, root, skipEnd, node.names)
    && Some(node.mi) == ModelAfter(sch, root, node.names) && Some(node.fi) == LastField(sch, root, node.names)
    && JoinsTo(p, ParentPath(sch, root, node.names), node.jtl, i)
    && (node.sel && node.jtl.Some? ==> p.tables[node.jtl.value].sel)
    && (node.sel ==> Selectable(sch, root, node))
  }

  /** A selected table is reached by forward steps that are all joined. */
  ghost predicate Selectable(sch: Schema, root: Model, node: Node) {
    && node.names != [] && node.fi.rel && !node.fi.m2m
    && ParentPath(sch, root, node.names) == node.names[..|node.names| - 1]
  }

  ghost predicate ValidPlan(sch: Schema, root: Model, skipEnd: bool, p: Plan) {
    && (forall i: nat :: i < |p.tables| ==> ValidNode(sch, root, skipEnd, p, i))
    && (forall key <- p.tablesM :: p.tablesM[key] < |p.tables| && PathName(p.tables[p.tablesM[key]].names) == key)
  }

  /** Positions keep their tables. */
  ghost predicate Extends(p: Plan, p': Plan) {
    && |p.tables| <= |p'.tables|
    && forall i :: 0 <= i < |p.tables| ==> p'.tables[i].names == p.tables[i].names && (p.tables[i].sel ==> p'.tables[i].sel)
  }

  function NewNode(p: Plan, names: seq<string>, mi: Model, fi: FieldInfo, inner: bool): Plan {
    var n := |p.tables|;
    Plan(p.tables + [Node(n + 1, names, false, inner, mi, fi, None)], p.tablesM[PathName(names) := n])
  }

  /** `dbTables.set`: overwrites the table of an existing name. */
  function SetNode(p: Plan, names: seq<string>, mi: Model, fi: FieldInfo, inner: bool): (Plan, nat) {
    var name := PathName(names);
    if name in p.tablesM && p.tablesM[name] < |p.tables| then
      var k := p.tablesM[name];
      (p.(tables := p.tables[k := p.tables[k].(mi := mi, fi := fi, inner := inner)]), k)
    else (NewNode(p, names, mi, fi, inner), |p.tables|)
  }

  /** `dbTables.add`: keeps the table of an existing name. */
  function AddNode(p: Plan, names: seq<string>, mi: Model, fi: FieldInfo, inner: bool): (Plan, nat) {
    var name := PathName(names);
    if name in p.tablesM && p.tablesM[name] < |p.tables| then (p, p.tablesM[name])
    else (NewNode(p, names, mi, fi, inner), |p.tables|)
  }

  function Link(p: Plan, k: nat, jtl: Option<nat>): Plan
    requires k < |p.tables|
  {
    p.(tables := p.tables[k := p.tables[k].(jtl := jtl)])
  }

  /** What a walk knows about the next path it is about to join. */
  ghost predicate Ready(sch: Schema, root: Model, skipEnd: bool, p: Plan, names: seq<string>,
                        mi: Model, fi: FieldInfo, inner: bool, jtl: Option<nat>)
  {
    && TablePath(sch, root, names)
    && ModelAfter(sch, root, names) == Some(mi) && LastField(sch, root, names) == Some(fi)
    && inner == InnerPath(sch, root, skipEnd, names)
    && JoinsTo(p, ParentPath(sch, root, names), jtl, |p.tables|)
  }

  ghost predicate SoundMap(p: Plan) { forall key <- p.tablesM :: p.tablesM[key] < |p.tables| }

  /** Whatever the names: positions keep their tables, and the name map points into the list. */
  lemma VisitExtends(p: Plan, names: seq<string>, mi: Model, fi: FieldInfo, inner: bool, jtl: Option<nat>)
    requires SoundMap(p)
    ensures forall q :: q == SetNode(p, names, mi, fi, inner) || q == AddNode(p, names, mi, fi, inner) ==>
              && q.1 < |q.0.tables| && SoundMap(Link(q.0, q.1, jtl)) && Extends(p, Link(q.0, q.1, jtl))
  {
  }

  lemma NodeByName(sch: Schema, root: Model, skipEnd: bool, p: Plan, names: seq<string>)
    requires Unambiguous(sch, root) && ValidPlan(sch, root, skipEnd, p)
    requires TablePath(sch, root, names) && PathName(names) in p.tablesM
    ensures p.tables[p.tablesM[PathName(names)]].names == names
  {
    var k := p.tablesM[PathName(names)];
    assert ValidNode(sch, root, skipEnd, p, k);
    assert OwnName(sch, root, names);
  }

  lemma NewNodeValid(sch: Schema, root: Model, skipEnd: bool, p: Plan, names: seq<string>,
                     mi: Model, fi: FieldInfo, inner: bool, jtl: Option<nat>)
    requires ValidPlan(sch, root, skipEnd, p) && Ready(sch, root, skipEnd, p, names, mi, fi, inner, jtl)
    requires PathName(names) !in p.tablesM
    ensures var p' := Link(NewNode(p, names, mi, fi, inner), |p.tables|, jtl);
            ValidPlan(sch, root, skipEnd, p') && Extends(p, p') && p'.tables[|p.tables|].names == names
  {
    var p' := Link(NewNode(p, names, mi, fi, inner), |p.tables|, jtl);
    forall i: nat | i < |p'.tables|
      ensures ValidNode(sch, root, skipEnd, p', i)
    {
      if i < |p.tables| {
        assert ValidNode(sch, root, skipEnd, p, i);
      }
    }
  }

  lemma OldNodeUnchanged(sch: Schema, root: Model, skipEnd: bool, p: Plan, names: seq<string>,
                         mi: Model, fi: FieldInfo, inner: bool, jtl: Option<nat>)
    requires Unambiguous(sch, root) && ValidPlan(sch, root, skipEnd, p) && Ready(sch, root, skipEnd, p, names, mi, fi, inner, jtl)
    requires PathName(names) in p.tablesM
    ensures var k := p.tablesM[PathName(names)];
      p.tables[k] == p.tables[k].(names := names, mi := mi, fi := fi, inner := inner, jtl := jtl)
  {
    NodeByName(sch, root, skipEnd, p, names);
    var k := p.tablesM[PathName(names)];
    assert ValidNode(sch, root, skipEnd, p, k);
    if jtl.Some? {
      assert ValidNode(sch, root, skipEnd, p, jtl.value);
      assert ValidNode(sch, root, skipEnd, p, p.tables[k].jtl.value);
    }
  }

  /** Setting or adding the table of a path and linking it to its parent keeps the plan valid;
      on a known path neither changes anything. */
  lemma VisitKeepsPlan(sch: Schema, root: Model, skipEnd: bool, p: Plan, names: seq<string>,
                       mi: Model, fi: FieldInfo, inner: bool, jtl: Option<nat>)
    requires Unambiguous(sch, root) && ValidPlan(sch, root, skipEnd, p) && Ready(sch, root, skipEnd, p, names, mi, fi, inner, jtl)
    ensures var (p1, k) := SetNode(p, names, mi, fi, inner);
      && k < |p1.tables| && AddNode(p, names, mi, fi, inner).1 == k
      && Link(AddNode(p, names, mi, fi, inner).0, k, jtl) == Link(p1, k, jtl)
      && ValidPlan(sch, root, skipEnd, Link(p1, k, jtl)) && Extends(p, Link(p1, k, jtl))
      && Link(p1, k, jtl).tables[k].names == names && Link(p1, k, jtl).tables[k].fi == fi && Link(p1, k, jtl).tables[k].mi == mi
      && (PathName(names) in p.tablesM ==> Link(p1, k, jtl) == p)
  {
    if PathName(names) in p.tablesM {
      OldNodeUnchanged(sch, root, skipEnd, p, names, mi, fi, inner, jtl);
      var k := p.tablesM[PathName(names)];
      assert p.tables[k := p.tables[k]] == p.tables;
    } else {
      NewNodeValid(sch, root, skipEnd, p, names, mi, fi, inner, jtl);
    }
  }

  lemma VisitKeepsValid(sch: Schema, root: Model, skipEnd: bool, p: Plan, names: seq<string>,
                        mi: Model, fi: FieldInfo, inner: bool, jtl: Option<nat>, overwrite: bool)
    requires SoundMap(p) && (Unambiguous(sch, root) ==> ValidPlan(sch, root, skipEnd, p) && Ready(sch, root, skipEnd, p, names, mi, fi, inner, jtl))
    ensures var (p1, k) := if overwrite then SetNode(p, names, mi, fi, inner) else AddNode(p, names, mi, fi, inner);
      && k < |p1.tables|
      && var p2 := Link(p1, k, jtl);
         && SoundMap(p2) && Extends(p, p2)
         && (Unambiguous(sch, root) ==>
               && ValidPlan(sch, root, skipEnd, p2) && p2.tables[k].names == names && p2.tables[k].fi == fi && p2.tables[k].mi == mi
               && (PathName(names) in p.tablesM ==> p2 == p))
  {
    VisitExtends(p, names, mi, fi, inner, jtl);
    if Unambiguous(sch, root) {
      VisitKeepsPlan(sch, root, skipEnd, p, names, mi, fi, inner, jtl);
    }
  }

  /** `set` followed by `jt.jtl = jtl`, as `parseRelated` does it. */
  function SetAndLink(p: Plan, names: seq<string>, mi: Model, fi: FieldInfo, inner: bool, jtl: Option<nat>): (r: (Plan, nat))
    ensures r.1 < |r.0.tables|
  {
    var (p1, k) := SetNode(p, names, mi, fi, inner);
    (Link(p1, k, jtl), k)
  }

  const EMPTY := Plan([], map[])

  /** What a visit stores besides the path. */
  datatype Visit = Visit(mi: Model, fi: FieldInfo, inner: bool, jtl: Option<nat>)

  /** The position `b` gets when it is visited right after `a`, which is at position 0. */
  function SecondTable(a: seq<string>, v: Visit, b: seq<string>, w: Visit): nat {
    SetAndLink(SetAndLink(EMPTY, a, v.mi, v.fi, v.inner, v.jtl).0, b, w.mi, w.fi, w.inner, w.jtl).1
  }

  lemma OwnTableIff(a: seq<string>, v: Visit, b: seq<string>, w: Visit)
    ensures SetAndLink(EMPTY, a, v.mi, v.fi, v.inner, v.jtl).1 == 0
    ensures SecondTable(a, v, b, w) != 0 <==> PathName(a) != PathName(b)
  {
  }

  /** All different relation paths get tables of their own exactly when no two share a name. */
  lemma TablesAreOwnIff(sch: Schema, root: Model)
    ensures (forall a, v, b, w :: TablePath(sch, root, a) && TablePath(sch, root, b) && a != b ==> SecondTable(a, v, b, w) != 0)
       <==> Unambiguous(sch, root)
  {
    forall a, v, b, w
      ensures SecondTable(a, v, b, w) != 0 <==> PathName(a) != PathName(b)
    {
      OwnTableIff(a, v, b, w);
    }
    if a, b :| TablePath(sch, root, a) && TablePath(sch, root, b) && PathName(a) == PathName(b) && a != b {
      var v := Visit(root, LastField(sch, root, a).value, true, None);
      assert SecondTable(a, v, b, v) == 0;
    }
  }

  /** A field named `a__b`, walked under another spelling, and then the path `a`, `b`: the first
      table is linked to the second, so its join refers to an alias that comes later. */
  lemma SharedNameBreaksOrder(a: string, b: string, mi: Model, fi: FieldInfo, inner: bool)
    ensures var (p1, k1) := SetAndLink(EMPTY, [a + "__" + b], mi, fi, inner, None);
      var (p2, k2) := SetAndLink(p1, [a], mi, fi, inner, None);
      var (p3, k3) := SetAndLink(p2, [a, b], mi, fi, inner, Some(k2));
      && k1 == k3 == 0 && k2 == 1 && p3.tables[0].jtl == Some(1)
      && GetJoins(p3)[0] == Join(inner, "T1", "T2") && GetJoins(p3)[1].alias == "T2"
  {
    var long := a + "__" + b;
    assert [a, b][1..] == [b];
    assert PathName([long]) == long && PathName([a]) == a && PathName([a, b]) == long && long != a;
    assert Itoa(1) == "1" && Itoa(2) == "2";
  }

  /** Walking one field further. */
  lemma PathStep(sch: Schema, root: Model, skipEnd: bool, names: seq<string>, m: Model, ex: string, fi: FieldInfo)
    requires sch.Valid() && ModelAfter(sch, root, names) == Some(m) && sch.GetByAny(m, ex) == Some(fi)
    ensures Spelled(sch, root, names) ==> Spelled(sch, root, names + [fi.name])
    ensures ModelAfter(sch, root, names + [fi.name]) == Some(fi.Next(m))
    ensures LastField(sch, root, names + [fi.name]) == Some(fi)
    ensures InnerPath(sch, root, skipEnd, names + [fi.name]) ==
            (InnerPath(sch, root, skipEnd, names) && (fi.IsRel() ==> !fi.nullable && !skipEnd))
    ensures ParentPath(sch, root, names + [fi.name]) ==
            if names == [] then [] else if LastField(sch, root, names).value.IsRel() then names else ParentPath(sch, root, names)
  {
    assert (m, ex) in sch.lookup;
    assert (names + [fi.name])[..|names|] == names;
  }

  /** Table `k` is reached by forward steps, the last one from a selected table or T0. */
  ghost predicate MaySelect(sch: Schema, root: Model, p: Plan, k: nat)
    requires k < |p.tables|
  {
    && (p.tables[k].jtl.Some? ==> p.tables[k].jtl.value < |p.tables| && p.tables[p.tables[k].jtl.value].sel)
    && Selectable(sch, root, p.tables[k])
  }

  lemma SelectKeepsPlan(sch: Schema, root: Model, skipEnd: bool, p: Plan, k: nat)
    requires ValidPlan(sch, root, skipEnd, p) && k < |p.tables| && MaySelect(sch, root, p, k)
    ensures var p' := p.(tables := p.tables[k := p.tables[k].(sel := true)]);
            ValidPlan(sch, root, skipEnd, p') && Extends(p, p')
  {
    var p' := p.(tables := p.tables[k := p.tables[k].(sel := true)]);
    forall i: nat | i < |p'.tables|
      ensures ValidNode(sch, root, skipEnd, p', i)
    {
      assert ValidNode(sch, root, skipEnd, p, i);
    }
  }

  // ---- the paths of parseRelated ----

  /** Every component is a known relation, and none is many-to-many. */
  ghost predicate RelatedOk(sch: Schema, m: Model, exs: seq<string>)
    decreases |exs|
  {
    exs == [] ||
    var fi := sch.GetByAny(m, exs[0]);
    fi.Some? && fi.value.rel && !fi.value.m2m && RelatedOk(sch, fi.value.target, exs[1..])
  }

  /** The field names of such a path, whatever spelling it used. */
  ghost function RelatedNames(sch: Schema, m: Model, exs: seq<string>): seq<string>
    requires RelatedOk(sch, m, exs)
    decreases |exs|
  {
    if exs == [] then []
    else
      var fi := sch.GetByAny(m, exs[0]).value;
      [fi.name] + RelatedNames(sch, fi.target, exs[1..])
  }

  /** No component is a reverse relation. */
  ghost predicate Forward(sch: Schema, m: Model, exs: seq<string>)
    requires RelatedOk(sch, m, exs)
    decreases |exs|
  {
    exs == [] ||
    var fi := sch.GetByAny(m, exs[0]).value;
    !fi.reverse && Forward(sch, fi.target, exs[1..])
  }

  /** How far a walk along `exs` has come: at model `m`, with `rest` still to go. */
  ghost predicate RelatedSoFar(sch: Schema, root: Model, exs: seq<string>, names: seq<string>, m: Model,
                               rest: seq<string>, forward: bool)
  {
    && (RelatedOk(sch, root, exs) <==> RelatedOk(sch, m, rest))
    && (RelatedOk(sch, root, exs) ==>
          && RelatedNames(sch, root, exs) == names + RelatedNames(sch, m, rest)
          && Forward(sch, root, exs) == (forward && Forward(sch, m, rest)))
  }

  lemma RelatedStep(sch: Schema, root: Model, exs: seq<string>, names: seq<string>, m: Model,
                    rest: seq<string>, forward: bool)
    requires RelatedSoFar(sch, root, exs, names, m, rest, forward) && rest != []
    ensures var fi := sch.GetByAny(m, rest[0]);
      if fi.None? || !fi.value.rel || fi.value.m2m then !RelatedOk(sch, root, exs)
      else RelatedSoFar(sch, root, exs, names + [fi.value.name], fi.value.target, rest[1..], forward && !fi.value.reverse)
  {
  }

  /** Where a walk of `parseRelated` stands: the model it has reached, whether only inner joins
      lead there, and the table, selected if the walk still selects. */
  ghost predicate Reached(sch: Schema, root: Model, skipEnd: bool, p: Plan, names: seq<string>,
                          m: Model, inner: bool, jtl: Option<nat>, select: bool)
  {
    && ModelAfter(sch, root, names) == Some(m) && Spelled(sch, root, names)
    && inner == InnerPath(sch, root, skipEnd, names)
    && JoinsTo(p, names, jtl, |p.tables|)
    && (names != [] ==> JoinPath(sch, root, names))
    && (select && jtl.Some? ==> p.tables[jtl.value].sel)
  }

  /** The same, as long as no two relation paths share a name. */
  ghost predicate OnPath(sch: Schema, root: Model, skipEnd: bool, p: Plan, names: seq<string>,
                         m: Model, inner: bool, jtl: Option<nat>, select: bool)
  {
    && ModelAfter(sch, root, names) == Some(m)
    && (Unambiguous(sch, root) ==> Reached(sch, root, skipEnd, p, names, m, inner, jtl, select))
  }

  /** The path has a table of its own that is selected. */
  ghost predicate HasSelected(p: Plan, names: seq<string>) {
    exists k :: 0 <= k < |p.tables| && p.tables[k].sel && p.tables[k].names == names
  }

  lemma EndsSelected(sch: Schema, root: Model, skipEnd: bool, p: Plan, exs: seq<string>, names: seq<string>, m: Model,
                     inner: bool, jtl: Option<nat>, select: bool)
    requires RelatedSoFar(sch, root, exs, names, m, [], select) && |names| == |exs|
    requires OnPath(sch, root, skipEnd, p, names, m, inner, jtl, select)
    ensures RelatedOk(sch, root, exs) && RelatedNames(sch, root, exs) == names
    ensures exs != [] && Forward(sch, root, exs) && Unambiguous(sch, root) ==> HasSelected(p, RelatedNames(sch, root, exs))
  {
    if exs != [] && Forward(sch, root, exs) && Unambiguous(sch, root) {
      assert p.tables[jtl.value].sel && p.tables[jtl.value].names == names == RelatedNames(sch, root, exs);
    }
  }

  lemma NextReady(sch: Schema, root: Model, skipEnd: bool, p: Plan, names: seq<string>, m: Model,
                  inner: bool, jtl: Option<nat>, select: bool, ex: string, fi: FieldInfo)
    requires sch.Valid() && Reached(sch, root, skipEnd, p, names, m, inner, jtl, select)
    requires sch.GetByAny(m, ex) == Some(fi) && fi.rel && !fi.m2m
    ensures var next := names + [fi.name];
      && Ready(sch, root, skipEnd, p, next, fi.target, fi, inner && !fi.nullable && !skipEnd, jtl)
      && ParentPath(sch, root, next) == next[..|next| - 1]
  {
    PathStep(sch, root, skipEnd, names, m, ex, fi);
    assert (names + [fi.name])[..|names|] == names;
  }

  lemma ComponentReady(sch: Schema, root: Model, skipEnd: bool, p: Plan, names: seq<string>, m: Model,
                       inner: bool, jtl: Option<nat>, select: bool, ex: string, fi: FieldInfo)
    requires sch.Valid() && OnPath(sch, root, skipEnd, p, names, m, inner, jtl, select)
    requires sch.GetByAny(m, ex) == Some(fi) && fi.rel && !fi.m2m
    ensures ModelAfter(sch, root, names + [fi.name]) == Some(fi.target)
    ensures Unambiguous(sch, root) ==>
              var next := names + [fi.name];
              && Ready(sch, root, skipEnd, p, next, fi.target, fi, inner && !fi.nullable && !skipEnd, jtl)
              && ParentPath(sch, root, next) == next[..|next| - 1]
              && (select && jtl.Some? ==> jtl.value < |p.tables| && p.tables[jtl.value].sel)
  {
    PathStep(sch, root, skipEnd, names, m, ex, fi);
    if Unambiguous(sch, root) {
      NextReady(sch, root, skipEnd, p, names, m, inner, jtl, select, ex, fi);
    }
  }

  lemma ComponentSelectable(sch: Schema, root: Model, p: Plan, p': Plan, names: seq<string>, fi: FieldInfo, jtl: Option<nat>, k: nat)
    requires Extends(p, p') && k < |p'.tables| && p'.tables[k].jtl == jtl && names != [] && fi.rel && !fi.m2m
    requires Unambiguous(sch, root) ==>
               && p'.tables[k].names == names && p'.tables[k].fi == fi && ParentPath(sch, root, names) == names[..|names| - 1]
               && (jtl.Some? ==> jtl.value < |p.tables| && p.tables[jtl.value].sel)
    ensures Unambiguous(sch, root) ==> MaySelect(sch, root, p', k)
  {
  }

  lemma ExtendsOn(a: Plan, b: Plan, c: Plan)
    requires Extends(a, b) && Extends(b, c)
    ensures Extends(a, c)
  {
  }

  lemma ComponentReached(sch: Schema, root: Model, skipEnd: bool, p: Plan, p': Plan, names: seq<string>, m: Model,
                         fi: FieldInfo, inner: bool, jtl: Option<nat>, k: nat, select: bool)
    requires Unambiguous(sch, root) ==> Ready(sch, root, skipEnd, p, names, m, fi, inner, jtl)
    requires k < |p'.tables| && (select ==> p'.tables[k].sel)
    requires Unambiguous(sch, root) ==> p'.tables[k].names == names
    requires ModelAfter(sch, root, names) == Some(m)
    ensures OnPath(sch, root, skipEnd, p', names, m, inner, Some(k), select)
  {
    if Unambiguous(sch, root) {
      NowReached(sch, root, skipEnd, p, p', names, m, fi, inner, jtl, k, select);
    }
  }

  lemma NowReached(sch: Schema, root: Model, skipEnd: bool, p: Plan, p': Plan, names: seq<string>, m: Model,
                   fi: FieldInfo, inner: bool, jtl: Option<nat>, k: nat, select: bool)
    requires Ready(sch, root, skipEnd, p, names, m, fi, inner, jtl)
    requires k < |p'.tables| && p'.tables[k].names == names && (select ==> p'.tables[k].sel)
    ensures Reached(sch, root, skipEnd, p', names, m, inner, Some(k), select)
  {
  }

  /** The relation paths of at most `depth + 1` steps that start with `fi`. */
  function DepthPaths(sch: Schema, depth: int, prefix: seq<string>, fi: FieldInfo): seq<seq<string>>
    decreases depth + 1, 1, 0
  {
    if depth < 0 || fi.m2m then []
    else [prefix + [fi.name]] + FieldPaths(sch, depth - 1, prefix + [fi.name], sch.FieldsRel(fi.target))
  }

  function FieldPaths(sch: Schema, depth: int, prefix: seq<string>, fields: seq<FieldInfo>): seq<seq<string>>
    decreases depth + 1, 2, |fields|
  {
    if depth < -1 || fields == [] then []
    else DepthPaths(sch, depth, prefix, fields[0]) + FieldPaths(sch, depth, prefix, fields[1..])
  }

  /** The plan after the first `n` components of a path were walked, and the table reached. */
  ghost function Walked(sch: Schema, root: Model, skipEnd: bool, p: Plan, names: seq<string>, n: nat): (Plan, Option<nat>)
    requires n <= |names|
  {
    if n == 0 then (p, None)
    else
      var (q, jtl) := Walked(sch, root, skipEnd, p, names, n - 1);
      var path := names[..n];
      var last := LastField(sch, root, path);
      if last.None? then (q, jtl)
      else
        var (q', k) := SetAndLink(q, path, last.value.target, last.value, InnerPath(sch, root, skipEnd, path), jtl);
        (q', Some(k))
  }

  lemma {:induction false} WalkedPrefix(sch: Schema, root: Model, skipEnd: bool, p: Plan, names: seq<string>, more: seq<string>, n: nat)
    requires n <= |names|
    ensures Walked(sch, root, skipEnd, p, names + more, n) == Walked(sch, root, skipEnd, p, names, n)
  {
    if n > 0 {
      WalkedPrefix(sch, root, skipEnd, p, names, more, n - 1);
      assert (names + more)[..n] == names[..n];
    }
  }

  /** The plans have the same tables and joins; models, fields and selection may differ. */
  ghost predicate SameJoins(p: Plan, q: Plan) {
    && p.tablesM == q.tablesM && |p.tables| == |q.tables|
    && forall i :: 0 <= i < |p.tables| ==> p.tables[i].names == q.tables[i].names && p.tables[i].jtl == q.tables[i].jtl
  }

  /** Walking `names` from `p` leads to the joins of `q`, with the table `jtl`. */
  ghost predicate WalkedAs(sch: Schema, root: Model, skipEnd: bool, p: Plan, names: seq<string>, q: Plan, jtl: Option<nat>) {
    var (w, j) := Walked(sch, root, skipEnd, p, names, |names|);
    SameJoins(w, q) && jtl == j
  }

  lemma SameVisits(p: Plan, q: Plan, q': Plan, k: nat, names: seq<string>, mi: Model, fi: FieldInfo, inner: bool, mi': Model, fi': FieldInfo,
                   inner': bool, jtl: Option<nat>)
    requires SameJoins(p, q) && k == SetAndLink(q, names, mi', fi', inner', jtl).1
    requires SameJoins(SetAndLink(q, names, mi', fi', inner', jtl).0, q')
    ensures SetAndLink(p, names, mi, fi, inner, jtl).1 == k && SameJoins(SetAndLink(p, names, mi, fi, inner, jtl).0, q')
  {
  }

  /** One component further, the plan is still the one the walk describes. */
  lemma WalkedOn(sch: Schema, root: Model, skipEnd: bool, p: Plan, q: Plan, q': Plan, names: seq<string>, m: Model, fi: FieldInfo,
                 jtl: Option<nat>, k: nat, inner: bool)
    requires WalkedAs(sch, root, skipEnd, p, names, q, jtl)
    requires ModelAfter(sch, root, names) == Some(m) && sch.GetByAny(m, fi.name) == Some(fi)
    requires k == SetAndLink(q, names + [fi.name], fi.target, fi, inner, jtl).1
    requires SameJoins(SetAndLink(q, names + [fi.name], fi.target, fi, inner, jtl).0, q')
    ensures WalkedAs(sch, root, skipEnd, p, names + [fi.name], q', Some(k))
  {
    var next := names + [fi.name];
    WalkedPrefix(sch, root, skipEnd, p, names, [fi.name], |names|);
    assert next[..|names| + 1] == next && next[..|names|] == names;
    var (w, j) := Walked(sch, root, skipEnd, p, names, |names|);
    SameVisits(w, q, q', k, next, fi.target, fi, InnerPath(sch, root, skipEnd, next), fi.target, fi, inner, jtl);
  }

  /** `loopDepth`: their names. */
  function LoopDepth(sch: Schema, depth: int, prefix: string, fi: FieldInfo): seq<string>
    decreases depth + 1, 1, 0
  {
    if depth < 0 || fi.m2m then []
    else
      var name := if prefix == "" then fi.name else prefix + "__" + fi.name;
      [name] + LoopFields(sch, depth - 1, name, sch.FieldsRel(fi.target))
  }

  function LoopFields(sch: Schema, depth: int, prefix: string, fields: seq<FieldInfo>): seq<string>
    decreases depth + 1, 2, |fields|
  {
    if depth < -1 || fields == [] then []
    else LoopDepth(sch, depth, prefix, fields[0]) + LoopFields(sch, depth, prefix, fields[1..])
  }

  /** The paths `parseRelated` adds when none is requested. */
  function Generated(sch: Schema, root: Model, rels: seq<string>, depth: int): seq<string> {
    LoopFields(sch, (if |rels| != 0 then 0 else depth) - 1, "", sch.FieldsRel(root))
  }

  /** Every path, cut at its separators, can be walked. */
  ghost predicate AllOk(sch: Schema, root: Model, related: seq<string>) {
    forall i :: 0 <= i < |related| ==> RelatedOk(sch, root, SplitSep(related[i]))
  }

  /** The first `n` paths can. */
  ghost predicate FirstOk(sch: Schema, root: Model, related: seq<string>, n: nat)
    requires n <= |related|
  {
    forall i :: 0 <= i < n ==> RelatedOk(sch, root, SplitSep(related[i]))
  }

  lemma OneMoreOk(sch: Schema, root: Model, related: seq<string>, i: nat)
    requires i < |related| && FirstOk(sch, root, related, i)
    ensures RelatedOk(sch, root, SplitSep(related[i])) <==> FirstOk(sch, root, related, i + 1)
    ensures AllOk(sch, root, related) ==> RelatedOk(sch, root, SplitSep(related[i]))
  {
  }

  lemma AllAreOk(sch: Schema, root: Model, related: seq<string>)
    requires FirstOk(sch, root, related, |related|)
    ensures AllOk(sch, root, related)
  {
  }

  // ---- names cut at their separators ----

  /** `strings.Split(s, ExprSep)`. */
  function SplitSep(s: string): (pieces: seq<string>)
    ensures |pieces| >= 1
  {
    if |s| < 2 then [s]
    else if s[0] == '_' && s[1] == '_' then [[]] + SplitSep(s[2..])
    else
      var rest := SplitSep(s[1..]);
      [[s[0]] + rest[0]] + rest[1..]
  }

  ghost predicate NoSep(s: string) { forall i :: 0 <= i < |s| - 1 ==> !(s[i] == '_' && s[i + 1] == '_') }

  predicate EndsLow(s: string) { s != [] && s[|s| - 1] == '_' }

  /** No component holds the separator, and only the last one may end in a low line. */
  ghost predicate Separable(names: seq<string>) {
    && (forall i :: 0 <= i < |names| ==> NoSep(names[i]))
    && (forall i :: 0 <= i < |names| - 1 ==> !EndsLow(names[i]))
  }

  lemma TailNoSep(s: string)
    requires NoSep(s) && s != []
    ensures NoSep(s[1..]) && (|s| >= 2 ==> !(s[0] == '_' && s[1] == '_'))
  {
    var t := s[1..];
    forall i | 0 <= i < |t| - 1
      ensures !(t[i] == '_' && t[i + 1] == '_')
    {
      assert t[i] == s[i + 1] && t[i + 1] == s[i + 1 + 1];
    }
    assert |s| >= 2 ==> s[0 + 1] == s[1];
  }

  lemma {:induction false} SplitWhole(s: string)
    requires NoSep(s)
    ensures SplitSep(s) == [s]
  {
    if |s| >= 2 {
      TailNoSep(s);
      SplitWhole(s[1..]);
      assert s == [s[0]] + s[1..];
    }
  }

  lemma {:induction false} SplitHead(a: string, rest: string)
    requires NoSep(a) && !EndsLow(a)
    ensures SplitSep(a + "__" + rest) == [a] + SplitSep(rest)
  {
    var s := a + "__" + rest;
    if a == [] {
      assert s[0] == '_' && s[1] == '_' && s[2..] == rest;
    } else {
      var tail := a[1..];
      TailNoSep(a);
      assert s[1..] == tail + "__" + rest && s[0] == a[0];
      assert |a| > 1 ==> s[1] == a[1];
      SplitHead(tail, rest);
      assert [a[0]] + tail == a;
    }
  }

  lemma {:induction false} SplitsBack(names: seq<string>)
    requires names != [] && Separable(names)
    ensures SplitSep(PathName(names)) == names
  {
    if |names| == 1 {
      SplitWhole(names[0]);
      assert names == [names[0]];
    } else {
      assert forall i :: 0 <= i < |names[1..]| ==> names[1..][i] == names[i + 1];
      SplitsBack(names[1..]);
      SplitHead(names[0], PathName(names[1..]));
      assert names == [names[0]] + names[1..];
    }
  }

  lemma {:induction false} PiecesAreSeparable(s: string)
    ensures Separable(SplitSep(s))
    ensures SplitSep(s)[0] != [] ==> s != [] && SplitSep(s)[0][0] == s[0]
    ensures |SplitSep(s)| > 1 && SplitSep(s)[0] == [] ==> |s| >= 2 && s[0] == '_' && s[1] == '_'
  {
    if |s| >= 2 {
      if s[0] == '_' && s[1] == '_' {
        PiecesAreSeparable(s[2..]);
      } else {
        PiecesAreSeparable(s[1..]);
      }
    }
  }

  /** A joined path is cut back into the same path exactly when no name holds the separator and
      none but the last ends in a low line. */
  lemma SplitsBackIff(names: seq<string>)
    requires names != []
    ensures SplitSep(PathName(names)) == names <==> Separable(names)
  {
    if Separable(names) {
      SplitsBack(names);
    }
    PiecesAreSeparable(PathName(names));
  }

  lemma {:induction false} PathNameSnoc(names: seq<string>, n: string)
    ensures PathName(names + [n]) == if names == [] then n else PathName(names) + "__" + n
  {
    if names == [] {
      assert names + [n] == [n];
    } else if |names| == 1 {
      assert (names + [n])[1..] == [n];
    } else {
      PathNameSnoc(names[1..], n);
      PathNameFirst(names + [n], names[1..] + [n]);
      PathNameFirst(names, names[1..]);
      var a, b := names[0] + "__", PathName(names[1..]);
      Associates(a, b + "__", n);
      Associates(a, b, "__");
    }
  }

  lemma PathNameFirst(names: seq<string>, rest: seq<string>)
    requires |names| > 1 && names[1..] == rest
    ensures PathName(names) == names[0] + "__" + PathName(rest)
  {
  }

  lemma {:induction false} NameNotEmpty(names: seq<string>)
    requires names != [] && names[0] != []
    ensures PathName(names) != []
  {
  }

  ghost function NamesOf(paths: seq<seq<string>>): seq<string> { seq(|paths|, i requires 0 <= i < |paths| => PathName(paths[i])) }

  lemma NamesConcat(a: seq<seq<string>>, b: seq<seq<string>>)
    ensures NamesOf(a + b) == NamesOf(a) + NamesOf(b)
  {
  }

  /** All relation fields have names that can be cut off again. */
  ghost predicate SeparableFields(sch: Schema) {
    forall m <- sch.rels :: forall fi <- sch.rels[m] :: NoSep(fi.name) && !EndsLow(fi.name)
  }

  ghost predicate SeparablePath(names: seq<string>) {
    forall i :: 0 <= i < |names| ==> names[i] != [] && NoSep(names[i]) && !EndsLow(names[i])
  }

  /** The generated names are those of the relation paths, and can be cut into these again. */
  lemma {:induction false} LoopDepthNames(sch: Schema, depth: int, path: seq<string>, fi: FieldInfo)
    requires sch.Valid() && fi.name != [] && (path != [] ==> path[0] != [])
    ensures LoopDepth(sch, depth, PathName(path), fi) == NamesOf(DepthPaths(sch, depth, path, fi))
    decreases depth + 1, 1, 0
  {
    if depth >= 0 && !fi.m2m {
      var next := path + [fi.name];
      PathNameSnoc(path, fi.name);
      if path != [] {
        NameNotEmpty(path);
      }
      FieldsNamed(sch, fi.target);
      LoopFieldsNames(sch, depth - 1, next, sch.FieldsRel(fi.target));
      NamesConcat([next], FieldPaths(sch, depth - 1, next, sch.FieldsRel(fi.target)));
      assert NamesOf([next]) == [PathName(next)];
    }
  }

  lemma {:induction false} LoopFieldsNames(sch: Schema, depth: int, path: seq<string>, fields: seq<FieldInfo>)
    requires sch.Valid() && (forall fi <- fields :: fi.name != []) && (path != [] ==> path[0] != [])
    ensures LoopFields(sch, depth, PathName(path), fields) == NamesOf(FieldPaths(sch, depth, path, fields))
    decreases depth + 1, 2, |fields|
  {
    if depth >= -1 && fields != [] {
      LoopDepthNames(sch, depth, path, fields[0]);
      LoopFieldsNames(sch, depth, path, fields[1..]);
      NamesConcat(DepthPaths(sch, depth, path, fields[0]), FieldPaths(sch, depth, path, fields[1..]));
    }
  }

  /** The column a path stands for. */
  datatype Column = FieldColumn(fi: FieldInfo) | PrimaryKey(of: Model)

  /** The number of the alias of a join target. */
  function AliasOf(jtl: Option<nat>): nat { if jtl.None? then 0 else jtl.value + 1 }

  /** The model whose table an alias stands for; 0 is T0. */
  ghost function Holder(root: Model, p: Plan, index: nat): Model
    requires index <= |p.tables|
  {
    if index == 0 then root else p.tables[index - 1].mi
  }

  function ColumnOf(fi: FieldInfo): Column { if !fi.rel && fi.reverse then PrimaryKey(fi.owner) else FieldColumn(fi) }

  /** The field component `i` of a path stands for. */
  ghost function FieldAt(sch: Schema, root: Model, exprs: seq<string>, i: nat): Option<FieldInfo>
    requires i < |exprs|
  {
    match ModelAfter(sch, root, exprs[..i]) case None => None case Some(m) => sch.GetByAny(m, exprs[i])
  }

  /** The walk ends at component `i` when it gets there: the last one or, for a deletion, a
      relation followed by a primary key, which the foreign key itself already holds. */
  ghost predicate StopsAt(sch: Schema, root: Model, skipEnd: bool, exprs: seq<string>, i: nat)
    requires i < |exprs|
  {
    var fi := FieldAt(sch, root, exprs, i);
    && fi.Some?
    && (i == |exprs| - 1 ||
        (skipEnd && fi.value.IsRel() && FieldAt(sch, root, exprs, i + 1).Some? && FieldAt(sch, root, exprs, i + 1).value.pk))
  }

  /** Component `at` is where the walk ends. */
  ghost predicate LandsAt(sch: Schema, root: Model, skipEnd: bool, exprs: seq<string>, at: nat) {
    at < |exprs| && StopsAt(sch, root, skipEnd, exprs, at) && PassesTo(sch, root, skipEnd, exprs, at)
  }

  ghost predicate PassesTo(sch: Schema, root: Model, skipEnd: bool, exprs: seq<string>, at: nat)
    requires at <= |exprs|
  {
    forall i :: 0 <= i < at ==> !StopsAt(sch, root, skipEnd, exprs, i)
  }

  lemma PassesOn(sch: Schema, root: Model, skipEnd: bool, exprs: seq<string>, i: nat)
    requires i < |exprs| && PassesTo(sch, root, skipEnd, exprs, i) && !StopsAt(sch, root, skipEnd, exprs, i)
    ensures PassesTo(sch, root, skipEnd, exprs, i + 1)
  {
  }

  /** No component before `i` is a relation. */
  ghost predicate NoRelation(sch: Schema, root: Model, exprs: seq<string>, i: nat)
    requires i <= |exprs|
  {
    forall j :: 0 <= j < i && FieldAt(sch, root, exprs, j).Some? ==> !FieldAt(sch, root, exprs, j).value.IsRel()
  }

  /** The walk ends at a reverse relation that is not joined, with no table joined before it:
      the source dereferences a nil table. */
  ghost predicate MissingTable(sch: Schema, root: Model, skipEnd: bool, exprs: seq<string>, at: nat)
    requires LandsAt(sch, root, skipEnd, exprs, at)
  {
    var fi := FieldAt(sch, root, exprs, at).value;
    !fi.rel && fi.reverse && (skipEnd || fi.inThrough) && NoRelation(sch, root, exprs, at)
  }

  /** The path can be resolved. */
  ghost predicate Resolvable(sch: Schema, root: Model, skipEnd: bool, exprs: seq<string>) {
    exists at: nat :: LandsAt(sch, root, skipEnd, exprs, at) && !MissingTable(sch, root, skipEnd, exprs, at)
  }

  lemma LandsOnce(sch: Schema, root: Model, skipEnd: bool, exprs: seq<string>, i: nat, j: nat)
    requires LandsAt(sch, root, skipEnd, exprs, i) && LandsAt(sch, root, skipEnd, exprs, j)
    ensures i == j
  {
  }

  lemma {:induction false} FoundBefore(sch: Schema, root: Model, exprs: seq<string>, i: nat, at: nat)
    requires i < at <= |exprs| && ModelAfter(sch, root, exprs[..at]).Some?
    ensures FieldAt(sch, root, exprs, i).Some?
    decreases at
  {
    assert exprs[..at][..at - 1] == exprs[..at - 1];
    if i < at - 1 {
      FoundBefore(sch, root, exprs, i, at - 1);
    }
  }

  /** An unknown component that the walk gets to makes the path unresolvable. */
  lemma UnknownComponent(sch: Schema, root: Model, skipEnd: bool, exprs: seq<string>, i: nat)
    requires i < |exprs| && FieldAt(sch, root, exprs, i).None?
    requires PassesTo(sch, root, skipEnd, exprs, i)
    ensures !Resolvable(sch, root, skipEnd, exprs)
  {
    if at: nat :| LandsAt(sch, root, skipEnd, exprs, at) && !MissingTable(sch, root, skipEnd, exprs, at) {
      if i < at {
        FoundBefore(sch, root, exprs, i, at);
      }
    }
  }

  /** Where a path leads: to the column of the field at `at`, taken from the alias `index`. */
  ghost predicate Resolved(sch: Schema, root: Model, skipEnd: bool, p: Plan, exprs: seq<string>, at: nat, index: nat, info: Column) {
    && LandsAt(sch, root, skipEnd, exprs, at) && index <= |p.tables|
    && var m, fi := ModelAfter(sch, root, exprs[..at]).value, FieldAt(sch, root, exprs, at).value;
       && info == ColumnOf(fi)
       && Holder(root, p, index) == if !skipEnd && fi.IsRel() && !fi.inThrough && (at > 0 || !fi.rel) then fi.Next(m) else m
  }

  /** The walk ends at component `i`, field `fi` of model `m`, with the table `jtl`. */
  ghost predicate Landing(sch: Schema, root: Model, skipEnd: bool, p: Plan, exprs: seq<string>, i: nat, m: Model, fi: FieldInfo,
                          jtl: Option<nat>)
  {
    && LandsAt(sch, root, skipEnd, exprs, i)
    && ModelAfter(sch, root, exprs[..i]) == Some(m) && sch.GetByAny(m, exprs[i]) == Some(fi)
    && AliasOf(jtl) <= |p.tables|
    && (Unambiguous(sch, root) ==>
          Holder(root, p, AliasOf(jtl)) == if fi.IsRel() && !fi.inThrough && !skipEnd then fi.Next(m) else m)
    && (jtl.None? <==> NoRelation(sch, root, exprs, i) && !(fi.IsRel() && !fi.inThrough && !skipEnd))
  }

  /** What `parseExprs` returns: it succeeds exactly on resolvable paths, with the column of the
      component it stops at and, as long as no two relation paths share a name, the alias that
      `Resolved` says. */
  ghost predicate Answers(sch: Schema, root: Model, skipEnd: bool, p: Plan, exprs: seq<string>,
                          success: bool, at: nat, index: nat, info: Option<Column>)
  {
    && (success <==> Resolvable(sch, root, skipEnd, exprs))
    && (success ==>
          && LandsAt(sch, root, skipEnd, exprs, at) && index <= |p.tables|
          && info == Some(ColumnOf(FieldAt(sch, root, exprs, at).value))
          && (Unambiguous(sch, root) ==> Resolved(sch, root, skipEnd, p, exprs, at, index, info.value)))
  }

  lemma NoComponents(sch: Schema, root: Model, skipEnd: bool)
    ensures !Resolvable(sch, root, skipEnd, [])
  {
  }

  lemma Resolve(sch: Schema, root: Model, skipEnd: bool, p: Plan, exprs: seq<string>, i: nat, m: Model, fi: FieldInfo,
                jtl: Option<nat>, index: nat)
    requires LandsAt(sch, root, skipEnd, exprs, i)
    requires ModelAfter(sch, root, exprs[..i]) == Some(m) && sch.GetByAny(m, exprs[i]) == Some(fi)
    requires AliasOf(jtl) <= |p.tables| && index == if i == 0 && !(!fi.rel && fi.reverse) then 0 else AliasOf(jtl)
    requires Holder(root, p, AliasOf(jtl)) == if fi.IsRel() && !fi.inThrough && !skipEnd then fi.Next(m) else m
    ensures Resolved(sch, root, skipEnd, p, exprs, i, index, ColumnOf(fi))
  {
    assert i == 0 ==> exprs[..i] == [];
  }

  /** The model that has the column: the one whose primary key it is, or the one whose field. */
  ghost function ColumnModel(m: Model, info: Column): Model { if info.PrimaryKey? then info.of else m }

  /** When field `fi` of model `m`, at component `at`, is read from the right table. */
  predicate AliasFits(skipEnd: bool, at: nat, m: Model, fi: FieldInfo) {
    if !fi.rel && fi.reverse then (!skipEnd && !fi.inThrough) || fi.owner == m
    else !fi.rel || skipEnd || fi.inThrough || at == 0 || fi.Next(m) == m
  }

  /** The alias stands for the model that has the column exactly when: for a reverse relation,
      it is joined (no deletion, and not a field of a many-to-many table) or leads back to the
      same model; for a forward relation, it is not joined, or it is the first component, or it
      leads back to the same model; and always for other fields. */
  lemma AliasFitsIff(sch: Schema, root: Model, skipEnd: bool, p: Plan, exprs: seq<string>, at: nat, index: nat, info: Column)
    requires Resolved(sch, root, skipEnd, p, exprs, at, index, info)
    ensures var m, fi := ModelAfter(sch, root, exprs[..at]).value, FieldAt(sch, root, exprs, at).value;
            Holder(root, p, index) == ColumnModel(m, info) <==> AliasFits(skipEnd, at, m, fi)
  {
  }

  /** Fields for the examples below. */
  function Forward1(name: string, target: Model): FieldInfo {
    FieldInfo(name, true, false, false, false, false, false, target, "", "")
  }

  function Reverse1(name: string, inThrough: bool, owner: Model): FieldInfo {
    FieldInfo(name, false, true, false, false, false, inThrough, owner, "", owner)
  }

  /** Model "t" leads to "m" by "a" and to the many-to-many table "x" by "c"; "m" leads on to "o"
      by "b" and is pointed at from "o" by "s", and "x" by "r". */
  const SAMPLE := Schema(
    map[("t", "a") := Forward1("a", "m"), ("t", "c") := Forward1("c", "x"), ("m", "b") := Forward1("b", "o"),
        ("m", "s") := Reverse1("s", false, "o"), ("x", "r") := Reverse1("r", true, "o")],
    map[], {"x"})

  lemma SampleIsSound()
    ensures SAMPLE.Valid() && Unambiguous(SAMPLE, "t")
  {
    forall k | k in SAMPLE.lookup
      ensures var fi := SAMPLE.lookup[k];
        && Clean(fi.name) && SAMPLE.GetByAny(k.0, fi.name) == Some(fi) && fi.inThrough == (k.0 in SAMPLE.through)
    {
      SampleField(k);
    }
    CleanIsUnambiguous(SAMPLE, "t");
  }

  lemma SampleField(k: (Model, string))
    requires k in SAMPLE.lookup
    ensures var fi := SAMPLE.lookup[k];
      && fi.name == k.1 && Clean(fi.name) && fi.inThrough == (k.0 in SAMPLE.through)
  {
    assert |k.1| == 1 && k.1[0] != '_';
  }

  /** The failing paths: a forward relation behind another component, a reverse relation of a
      many-to-many table, and a reverse relation in a deletion. */
  datatype Miss = Behind | OfThrough | InDeletion
  {
    function Path(): seq<string> { match this case Behind => ["a", "b"] case OfThrough => ["c", "r"] case InDeletion => ["a", "s"] }

    /** The model that has the field. */
    function Of(): Model { if OfThrough? then "x" else "m" }
  }

  lemma SampleWalk(first: string, mid: Model, last: string)
    requires SAMPLE.GetByAny("t", first) == Some(Forward1(first, mid))
    ensures var path := [first, last];
      && ModelAfter(SAMPLE, "t", path[..1]) == Some(mid)
      && FieldAt(SAMPLE, "t", path, 0) == Some(Forward1(first, mid))
      && FieldAt(SAMPLE, "t", path, 1) == SAMPLE.GetByAny(mid, last)
  {
    var path := [first, last];
    assert path[..0] == [] && path[..1] == [first] && [first][..0] == [];
    assert ModelAfter(SAMPLE, "t", []) == Some("t");
  }

  /** On all three kinds of failing paths `parseExprs` succeeds, whatever was planned before,
      with the alias of a model that does not have the column. */
  lemma AliasCanMiss(p: Plan, miss: Miss, index: nat, info: Column)
    ensures SAMPLE.Valid() && Unambiguous(SAMPLE, "t") && Resolvable(SAMPLE, "t", miss.InDeletion?, miss.Path())
    ensures Resolved(SAMPLE, "t", miss.InDeletion?, p, miss.Path(), 1, index, info) ==>
              && ColumnModel(miss.Of(), info) == (if miss.Behind? then "m" else "o")
              && Holder("t", p, index) == (if miss.Behind? then "o" else miss.Of())
  {
    SampleIsSound();
    var path, skipEnd := miss.Path(), miss.InDeletion?;
    SampleWalk(path[0], miss.Of(), path[1]);
    assert path == [path[0], path[1]];
    assert SAMPLE.GetByAny(miss.Of(), path[1]).Some? && !SAMPLE.GetByAny(miss.Of(), path[1]).value.pk;
    assert PassesTo(SAMPLE, "t", skipEnd, path, 1);
    OnlyLanding(SAMPLE, "t", skipEnd, path, 1);
    assert !NoRelation(SAMPLE, "t", path, 1);
  }

  class DbTables {
    const sch: Schema
    const root: Model
    const skipEnd: bool
    var tables: seq<Node>
    var tablesM: map<string, nat>

    ghost function P(): Plan reads this { Plan(tables, tablesM) }

    /** The name map points into the list; as long as no two relation paths share a name, the
        whole plan is valid. */
    ghost predicate Valid() reads this {
      && sch.Valid() && SoundMap(P())
      && (Unambiguous(sch, root) ==> ValidPlan(sch, root, skipEnd, P()))
    }

    constructor (sch: Schema, root: Model, skipEnd: bool)
      requires sch.Valid()
      ensures Valid() && this.sch == sch && this.root == root && this.skipEnd == skipEnd && P() == Plan([], map[])
    {
      this.sch, this.root, this.skipEnd := sch, root, skipEnd;
      tables, tablesM := [], map[];
    }

    method Set(names: seq<string>, mi: Model, fi: FieldInfo, inner: bool) returns (k: nat)
      requires Valid()
      modifies this
      ensures (P(), k) == SetNode(old(P()), names, mi, fi, inner)
    {
      var name := PathName(names);
      if name in tablesM {
        k := tablesM[name];
        tables := tables[k := tables[k].(mi := mi, fi := fi, inner := inner)];
      } else {
        k := |tables|;
        tablesM := tablesM[name := k];
        tables := tables + [Node(k + 1, names, false, inner, mi, fi, None)];
      }
    }

    method Add(names: seq<string>, mi: Model, fi: FieldInfo, inner: bool) returns (k: nat)
      requires Valid()
      modifies this
      ensures (P(), k) == AddNode(old(P()), names, mi, fi, inner)
    {
      var name := PathName(names);
      if name in tablesM {
        k := tablesM[name];
      } else {
        k := |tables|;
        tablesM := tablesM[name := k];
        tables := tables + [Node(k + 1, names, false, inner, mi, fi, None)];
      }
    }

    /** `set` or `add`, followed by `jt.jtl = jtl`. */
    method Visit(overwrite: bool, names: seq<string>, mi: Model, fi: FieldInfo, inner: bool, jtl: Option<nat>) returns (k: nat)
      requires Valid() && (Unambiguous(sch, root) ==> Ready(sch, root, skipEnd, P(), names, mi, fi, inner, jtl))
      modifies this
      ensures Valid() && Extends(old(P()), P())
      ensures k < |tables| && tables[k].jtl == jtl && (overwrite ==> (P(), k) == SetAndLink(old(P()), names, mi, fi, inner, jtl))
      ensures Unambiguous(sch, root) ==>
                && tables[k].names == names && tables[k].fi == fi && tables[k].mi == mi
                && (PathName(names) in old(tablesM) ==> P() == old(P()))
    {
      VisitKeepsValid(sch, root, skipEnd, P(), names, mi, fi, inner, jtl, overwrite);
      if overwrite {
        k := Set(names, mi, fi, inner);
      } else {
        k := Add(names, mi, fi, inner);
      }
      ghost var added := P();
      tables := tables[k := tables[k].(jtl := jtl)];
      assert P() == Link(added, k, jtl);
    }

    method Select(k: nat)
      requires Valid() && k < |tables| && (Unambiguous(sch, root) ==> MaySelect(sch, root, P(), k))
      modifies this
      ensures Valid() && Extends(old(P()), P()) && SameJoins(old(P()), P()) && tables[k].sel
    {
      if Unambiguous(sch, root) {
        SelectKeepsPlan(sch, root, skipEnd, P(), k);
      }
      ghost var before := P();
      tables := tables[k := tables[k].(sel := true)];
      assert P() == before.(tables := before.tables[k := before.tables[k].(sel := true)]);
    }

    /** The body of the inner loop of `parseRelated` for a field it accepts. */
    method RelateComponent(names: seq<string>, mmi: Model, inner: bool, jtl: Option<nat>, cancel: bool, ghost ex: string, fi: FieldInfo)
      returns (inner': bool, k: nat)
      requires Valid() && OnPath(sch, root, skipEnd, P(), names, mmi, inner, jtl, cancel)
      requires sch.GetByAny(mmi, ex) == Some(fi) && fi.rel && !fi.m2m
      modifies this
      ensures Valid() && Extends(old(P()), P())
      ensures OnPath(sch, root, skipEnd, P(), names + [fi.name], fi.target, inner', Some(k), cancel && !fi.reverse)
      ensures var (p', k') := SetAndLink(old(P()), names + [fi.name], fi.target, fi, inner', jtl); SameJoins(p', P()) && k == k'
    {
      ComponentReady(sch, root, skipEnd, P(), names, mmi, inner, jtl, cancel, ex, fi);
      ghost var before := P();
      inner' := if fi.nullable || skipEnd then false else inner;
      k := Visit(true, names + [fi.name], fi.target, fi, inner', jtl);
      ghost var mid := P();
      if cancel && !fi.reverse {
        ComponentSelectable(sch, root, before, mid, names + [fi.name], fi, jtl, k);
        Select(k);
      }
      ExtendsOn(before, mid, P());
      ComponentReached(sch, root, skipEnd, before, P(), names + [fi.name], fi.target, fi, inner', jtl, k, cancel && !fi.reverse);
    }

    /** One path of `parseRelated`; `ok` is false where the source panics. */
    method WalkRelated(exs: seq<string>) returns (ok: bool)
      requires Valid()
      modifies this
      ensures Valid() && Extends(old(P()), P())
      ensures ok <==> RelatedOk(sch, root, exs)
      ensures ok && exs != [] && Forward(sch, root, exs) && Unambiguous(sch, root) ==>
                HasSelected(P(), RelatedNames(sch, root, exs))
      ensures ok ==>
                var names := RelatedNames(sch, root, exs);
                SameJoins(Walked(sch, root, skipEnd, old(P()), names, |names|).0, P())
    {
      var names: seq<string>, mmi, cancel, inner := [], root, true, true;
      var jtl: Option<nat> := None;
      for i := 0 to |exs|
        invariant Valid() && Extends(old(P()), P())
        invariant RelatedSoFar(sch, root, exs, names, mmi, exs[i..], cancel)
        invariant |names| == i && OnPath(sch, root, skipEnd, P(), names, mmi, inner, jtl, cancel)
        invariant WalkedAs(sch, root, skipEnd, old(P()), names, P(), jtl)
      {
        var found := sch.GetByAny(mmi, exs[i]);
        RelatedStep(sch, root, exs, names, mmi, exs[i..], cancel);
        assert exs[i..][1..] == exs[i + 1..];
        if found.None? || !found.value.rel || found.value.m2m {
          return false;
        }
        var fi := found.value;
        var k;
        ghost var before := P();
        inner, k := RelateComponent(names, mmi, inner, jtl, cancel, exs[i], fi);
        assert (mmi, exs[i]) in sch.lookup;
        WalkedOn(sch, root, skipEnd, old(P()), before, P(), names, mmi, fi, jtl, k, inner);
        names, mmi, jtl := names + [fi.name], fi.target, Some(k);
        if fi.reverse {
          cancel := false;
        }
      }
      assert exs[|exs|..] == [];
      EndsSelected(sch, root, skipEnd, P(), exs, names, mmi, inner, jtl, cancel);
      return true;
    }

    /** One path of `parseRelated`, cut at its separators. */
    method WalkName(name: string) returns (ok: bool)
      requires Valid()
      modifies this
      ensures Valid() && Extends(old(P()), P()) && (ok <==> RelatedOk(sch, root, SplitSep(name)))
    {
      ok := WalkRelated(SplitSep(name));
    }

    /** `parseRelated`: the requested paths or, without any, every path up to the depth, each cut at
        its separators; `ok` is false where the source panics. */
    method ParseRelated(rels: seq<string>, depth: int) returns (ok: bool)
      requires Valid()
      modifies this
      ensures Valid() && Extends(old(P()), P())
      ensures ok <==> AllOk(sch, root, rels + Generated(sch, root, rels, depth))
    {
      var relDepth := (if |rels| != 0 then 0 else depth) - 1;
      var related := rels + LoopFields(sch, relDepth, "", sch.FieldsRel(root));
      for i := 0 to |related|
        invariant Valid() && Extends(old(P()), P())
        invariant FirstOk(sch, root, related, i)
      {
        // `sel` is set to `depth > 0 || i < len(rels)`, which holds for every path here
        RequestedOrDeep(sch, root, rels, depth, i);
        ghost var before := P();
        var walked := WalkName(related[i]);
        ExtendsOn(old(P()), before, P());
        OneMoreOk(sch, root, related, i);
        if !walked {
          return false;
        }
      }
      AllAreOk(sch, root, related);
      return true;
    }

    method JoinTable(ghost exprs: seq<string>, ghost i: nat, names: seq<string>, mmi: Model, inner: bool, parent: Option<nat>, fi: FieldInfo)
      returns (jtl: Option<nat>)
      requires Valid() && |names| == i < |exprs| && fi.IsRel()
      requires ModelAfter(sch, root, exprs[..i]) == Some(mmi) && sch.GetByAny(mmi, exprs[i]) == Some(fi)
      requires Unambiguous(sch, root) ==> Ready(sch, root, skipEnd, P(), names + [fi.name], fi.Next(mmi), fi, inner, parent)
      modifies this
      ensures Valid() && Extends(old(P()), P()) && jtl.Some? && AliasOf(jtl) <= |tables|
      ensures Unambiguous(sch, root) ==>
                && Holder(root, P(), AliasOf(jtl)) == fi.Next(mmi)
                && Explored(sch, root, skipEnd, P(), exprs, i + 1, names + [fi.name], fi.Next(mmi), inner, jtl)
    {
      ghost var before := P();
      var k := Visit(false, names + [fi.name], fi.Next(mmi), fi, inner, parent);
      if Unambiguous(sch, root) {
        ExploreJoined(sch, root, skipEnd, before, P(), exprs, i, names, mmi, fi, fi.Next(mmi), inner, parent, k);
      }
      jtl := Some(k);
    }

    /** The middle of `parseExprs`: joins the component that was just walked, unless it is the
        last one of a many-to-many table, or a deletion can do without it. */
    method JoinComponent(exprs: seq<string>, i: nat, names: seq<string>, mmi: Model, innerSoFar: bool, parent: Option<nat>,
                         fi: FieldInfo, next: Option<FieldInfo>)
      returns (inner: bool, jtl: Option<nat>, stop: bool)
      requires Valid() && i < |exprs| && Walking(sch, root, skipEnd, P(), exprs, i, names, mmi, innerSoFar, parent)
      requires sch.GetByAny(mmi, exprs[i]) == Some(fi)
      requires next == if i < |exprs| - 1 then sch.GetByAny(fi.Next(mmi), exprs[i + 1]) else None
      modifies this
      ensures Valid() && Extends(old(P()), P())
      ensures FieldAt(sch, root, exprs, i) == Some(fi) && (i < |exprs| - 1 ==> FieldAt(sch, root, exprs, i + 1) == next)
      ensures stop || i == |exprs| - 1 <==> StopsAt(sch, root, skipEnd, exprs, i)
      ensures AliasOf(jtl) <= |tables|
      ensures stop || i == |exprs| - 1 ==>
                && (jtl.None? <==> NoRelation(sch, root, exprs, i) && !(fi.IsRel() && !fi.inThrough && !skipEnd))
                && (Unambiguous(sch, root) ==>
                      Holder(root, P(), AliasOf(jtl)) == if fi.IsRel() && !fi.inThrough && !skipEnd then fi.Next(mmi) else mmi)
      ensures !stop && next.Some? ==>
                Walking(sch, root, skipEnd, P(), exprs, i + 1, names + [fi.name], fi.Next(mmi), inner, jtl)
    {
      if Unambiguous(sch, root) {
        ExploreOne(sch, root, skipEnd, P(), exprs, i, names, mmi, innerSoFar, parent, fi);
      }
      SpellingStep(sch, root, exprs, i, mmi, fi);
      NextField(sch, root, exprs, i, mmi, fi);
      MoreRelations(sch, root, exprs, i, fi);
      inner, jtl, stop := innerSoFar, parent, false;
      if fi.IsRel() && (!fi.inThrough || i < |exprs| - 1) {
        if fi.nullable || skipEnd {
          inner := false;
        }
        if !skipEnd || next.Some? {
          if skipEnd && next.Some? && next.value.pk {
            stop := true;
          } else {
            jtl := JoinTable(exprs, i, names, mmi, inner, parent, fi);
          }
        }
      }
    }

    /** The body of the loop of `parseExprs` for a component that was found; `stop` sends it to the
        label `loopEnd`. */
    method ExploreComponent(exprs: seq<string>, i: nat, names: seq<string>, mmi: Model, innerSoFar: bool, parent: Option<nat>, fi: FieldInfo)
      returns (inner: bool, jtl: Option<nat>, fiN: Option<FieldInfo>, stop: bool)
      requires Valid() && i < |exprs| && Ahead(sch, root, skipEnd, P(), exprs, i, names, mmi, innerSoFar, parent, Some(fi))
      modifies this
      ensures Valid() && Extends(old(P()), P()) && (stop || i < |exprs| - 1)
      ensures if stop then Landing(sch, root, skipEnd, P(), exprs, i, mmi, fi, jtl)
              else Ahead(sch, root, skipEnd, P(), exprs, i + 1, names + [fi.name], fi.Next(mmi), inner, jtl, fiN)
    {
      fiN := if i < |exprs| - 1 then sch.GetByAny(fi.Next(mmi), exprs[i + 1]) else None;
      inner, jtl, stop := JoinComponent(exprs, i, names, mmi, innerSoFar, parent, fi, fiN);
      stop := stop || i == |exprs| - 1;
      if !stop {
        WalksOn(sch, root, skipEnd, P(), exprs, i, names + [fi.name], fi.Next(mmi), inner, jtl, fiN);
      }
    }

    /** The end of `parseExprs`, at its label `loopEnd`. */
    method Land(ghost exprs: seq<string>, i: nat, ghost m: Model, fi: FieldInfo, jtl: Option<nat>)
      returns (success: bool, index: nat, info: Option<Column>)
      requires Landing(sch, root, skipEnd, P(), exprs, i, m, fi, jtl)
      ensures Answers(sch, root, skipEnd, P(), exprs, success, i, index, info)
    {
      OnlyLanding(sch, root, skipEnd, exprs, i);
      success, index, info := false, 0, None;
      if !fi.rel && fi.reverse && jtl.None? {
        return;
      }
      success, info := true, Some(ColumnOf(fi));
      index := if i == 0 && !(!fi.rel && fi.reverse) then 0 else AliasOf(jtl);
      if Unambiguous(sch, root) {
        Resolve(sch, root, skipEnd, P(), exprs, i, m, fi, jtl, index);
      }
    }

    /** `parseExprs`: joins what the path needs, stops at component `at` and returns the column
        it stands for with the alias the column is taken from; a reverse relation stands for the
        primary key of the model that holds the foreign key.  `success` is false for an unknown
        component and where the source dereferences a missing table.  For which paths the alias
        is that of the model with the column, `AliasFitsIff` says. */
    method ParseExprs(exprs: seq<string>) returns (success: bool, index: nat, info: Option<Column>, at: nat)
      requires Valid()
      modifies this
      ensures Valid() && Extends(old(P()), P())
      ensures Answers(sch, root, skipEnd, P(), exprs, success, at, index, info)
    {
      success, index, info, at := false, 0, None, 0;
      var jtl: Option<nat> := None;
      var fiN: Option<FieldInfo> := None;
      var mmi, names: seq<string>, inner := root, [], true;
      if exprs == [] {
        NoComponents(sch, root, skipEnd);
        return;
      }
      WalkStarts(sch, root, skipEnd, P(), exprs);
      fiN := sch.GetByAny(mmi, exprs[0]);
      var i := 0;
      while i < |exprs|
        invariant i < |exprs| && Valid() && Extends(old(P()), P())
        invariant Ahead(sch, root, skipEnd, P(), exprs, i, names, mmi, inner, jtl, fiN)
      {
        var found := fiN;
        if found.None? {
          UnknownComponent(sch, root, skipEnd, exprs, i);
          return;
        }
        var fi := found.value;
        var stop;
        ghost var before := P();
        inner, jtl, fiN, stop := ExploreComponent(exprs, i, names, mmi, inner, jtl, fi);
        ExtendsOn(old(P()), before, P());
        if stop {
          at := i;
          success, index, info := Land(exprs, i, mmi, fi, jtl);
          return;
        }
        names, mmi, i := names + [fi.name], fi.Next(mmi), i + 1;
      }
    }
  }

  /** The walk has come to component `i`, whose field is `found`. */
  ghost predicate Ahead(sch: Schema, root: Model, skipEnd: bool, p: Plan, exprs: seq<string>, i: nat,
                        names: seq<string>, m: Model, inner: bool, jtl: Option<nat>, found: Option<FieldInfo>)
  {
    i < |exprs| ==>
      && PassesTo(sch, root, skipEnd, exprs, i) && found == FieldAt(sch, root, exprs, i)
      && (found.Some? ==> Walking(sch, root, skipEnd, p, exprs, i, names, m, inner, jtl) && found == sch.GetByAny(m, exprs[i]))
  }

  lemma WalkStarts(sch: Schema, root: Model, skipEnd: bool, p: Plan, exprs: seq<string>)
    requires exprs != []
    ensures Ahead(sch, root, skipEnd, p, exprs, 0, [], root, true, None, sch.GetByAny(root, exprs[0]))
  {
    assert exprs[..0] == [];
  }

  lemma WalksOn(sch: Schema, root: Model, skipEnd: bool, p: Plan, exprs: seq<string>, i: nat,
                names: seq<string>, m: Model, inner: bool, jtl: Option<nat>, next: Option<FieldInfo>)
    requires i < |exprs| - 1 && PassesTo(sch, root, skipEnd, exprs, i) && !StopsAt(sch, root, skipEnd, exprs, i)
    requires next == FieldAt(sch, root, exprs, i + 1) == sch.GetByAny(m, exprs[i + 1])
    requires next.Some? ==> Walking(sch, root, skipEnd, p, exprs, i + 1, names, m, inner, jtl)
    ensures Ahead(sch, root, skipEnd, p, exprs, i + 1, names, m, inner, jtl, next)
  {
    PassesOn(sch, root, skipEnd, exprs, i);
  }

  lemma NextField(sch: Schema, root: Model, exprs: seq<string>, i: nat, m: Model, fi: FieldInfo)
    requires i < |exprs| && ModelAfter(sch, root, exprs[..i]) == Some(m) && sch.GetByAny(m, exprs[i]) == Some(fi)
    ensures FieldAt(sch, root, exprs, i) == Some(fi)
    ensures i + 1 < |exprs| ==> FieldAt(sch, root, exprs, i + 1) == sch.GetByAny(fi.Next(m), exprs[i + 1])
  {
    SpellingStep(sch, root, exprs, i, m, fi);
  }

  lemma MoreRelations(sch: Schema, root: Model, exprs: seq<string>, i: nat, fi: FieldInfo)
    requires i < |exprs| && FieldAt(sch, root, exprs, i) == Some(fi)
    ensures NoRelation(sch, root, exprs, i + 1) <==> NoRelation(sch, root, exprs, i) && !fi.IsRel()
  {
  }

  lemma OnlyLanding(sch: Schema, root: Model, skipEnd: bool, exprs: seq<string>, i: nat)
    requires LandsAt(sch, root, skipEnd, exprs, i)
    ensures Resolvable(sch, root, skipEnd, exprs) <==> !MissingTable(sch, root, skipEnd, exprs, i)
  {
    if at: nat :| LandsAt(sch, root, skipEnd, exprs, at) && !MissingTable(sch, root, skipEnd, exprs, at) {
      LandsOnce(sch, root, skipEnd, exprs, i, at);
    }
  }

  /** The walk, with a table joined as soon as a relation was walked. */
  ghost predicate Walking(sch: Schema, root: Model, skipEnd: bool, p: Plan, exprs: seq<string>, i: nat,
                          names: seq<string>, m: Model, inner: bool, jtl: Option<nat>)
  {
    && i <= |exprs| && |names| == i && ModelAfter(sch, root, exprs[..i]) == Some(m)
    && AliasOf(jtl) <= |p.tables| && (jtl.None? <==> NoRelation(sch, root, exprs, i))
    && (Unambiguous(sch, root) ==> Explored(sch, root, skipEnd, p, exprs, i, names, m, inner, jtl))
  }

  /** Where a walk of `parseExprs` stands. */
  ghost predicate Explored(sch: Schema, root: Model, skipEnd: bool, p: Plan, exprs: seq<string>, i: nat,
                           names: seq<string>, m: Model, inner: bool, jtl: Option<nat>)
  {
    && i <= |exprs| && |names| == i && Spelled(sch, root, names)
    && ModelAfter(sch, root, names) == Some(m) && ModelAfter(sch, root, exprs[..i]) == Some(m)
    && inner == InnerPath(sch, root, skipEnd, names)
    && JoinsTo(p, LinkPath(sch, root, names), jtl, |p.tables|)
  }

  lemma ExploreOne(sch: Schema, root: Model, skipEnd: bool, p: Plan, exprs: seq<string>, i: nat,
                   names: seq<string>, m: Model, inner: bool, jtl: Option<nat>, fi: FieldInfo)
    requires sch.Valid() && ValidPlan(sch, root, skipEnd, p) && Explored(sch, root, skipEnd, p, exprs, i, names, m, inner, jtl)
    requires i < |exprs| && sch.GetByAny(m, exprs[i]) == Some(fi)
    ensures if fi.IsRel() then Ready(sch, root, skipEnd, p, names + [fi.name], fi.Next(m), fi, inner && !fi.nullable && !skipEnd, jtl)
            else Explored(sch, root, skipEnd, p, exprs, i + 1, names + [fi.name], fi.Next(m), inner, jtl)
    ensures AliasOf(jtl) <= |p.tables| && m == Holder(root, p, AliasOf(jtl)) && (i == 0 ==> m == root)
  {
    PathStep(sch, root, skipEnd, names, m, exprs[i], fi);
    SpellingStep(sch, root, exprs, i, m, fi);
    LinkedModel(sch, root, skipEnd, p, names, m, jtl);
  }

  lemma ExploreJoined(sch: Schema, root: Model, skipEnd: bool, p: Plan, p': Plan, exprs: seq<string>, i: nat,
                      names: seq<string>, m: Model, fi: FieldInfo, mi: Model, inner: bool, jtl: Option<nat>, k: nat)
    requires |names| == i < |exprs| && ModelAfter(sch, root, exprs[..i]) == Some(m) && sch.GetByAny(m, exprs[i]) == Some(fi)
    requires mi == fi.Next(m) && fi.IsRel() && Ready(sch, root, skipEnd, p, names + [fi.name], mi, fi, inner, jtl)
    requires k < |p'.tables| && p'.tables[k].names == names + [fi.name]
    ensures Explored(sch, root, skipEnd, p', exprs, i + 1, names + [fi.name], mi, inner, Some(k))
  {
    SpellingStep(sch, root, exprs, i, m, fi);
  }

  /** Walking by field names or by any other spelling leads to the same model. */
  lemma SpellingStep(sch: Schema, root: Model, exprs: seq<string>, i: nat, m: Model, fi: FieldInfo)
    requires i < |exprs| && ModelAfter(sch, root, exprs[..i]) == Some(m) && sch.GetByAny(m, exprs[i]) == Some(fi)
    ensures ModelAfter(sch, root, exprs[..i + 1]) == Some(fi.Next(m))
  {
    assert exprs[..i + 1][..i] == exprs[..i];
  }

  lemma {:induction false} LinkPathModel(sch: Schema, root: Model, names: seq<string>)
    requires ModelAfter(sch, root, names).Some?
    ensures ModelAfter(sch, root, LinkPath(sch, root, names)) == ModelAfter(sch, root, names)
    decreases |names|
  {
    if names != [] {
      LinkPathModel(sch, root, names[..|names| - 1]);
    }
  }

  /** The table a walk would join to stands for the model the walk has reached. */
  lemma LinkedModel(sch: Schema, root: Model, skipEnd: bool, p: Plan, names: seq<string>, m: Model, jtl: Option<nat>)
    requires ValidPlan(sch, root, skipEnd, p) && ModelAfter(sch, root, names) == Some(m)
    requires JoinsTo(p, LinkPath(sch, root, names), jtl, |p.tables|)
    ensures m == if jtl.None? then root else p.tables[jtl.value].mi
  {
    LinkPathModel(sch, root, names);
    if jtl.Some? {
      assert ValidNode(sch, root, skipEnd, p, jtl.value);
    }
  }

  /** The path whose table the next component joins to. */
  ghost function LinkPath(sch: Schema, root: Model, names: seq<string>): seq<string> {
    if names == [] then []
    else
      var last := LastField(sch, root, names);
      if last.Some? && last.value.IsRel() then names else ParentPath(sch, root, names)
  }

  ghost function RelatedEnd(sch: Schema, m: Model, exs: seq<string>): Model
    requires RelatedOk(sch, m, exs)
    decreases |exs|
  {
    if exs == [] then m else RelatedEnd(sch, sch.GetByAny(m, exs[0]).value.target, exs[1..])
  }

  lemma {:induction false} RelatedSnoc(sch: Schema, m: Model, exs: seq<string>, fi: FieldInfo)
    requires RelatedOk(sch, m, exs) && sch.GetByAny(RelatedEnd(sch, m, exs), fi.name) == Some(fi) && fi.rel && !fi.m2m
    ensures RelatedOk(sch, m, exs + [fi.name]) && RelatedEnd(sch, m, exs + [fi.name]) == fi.target
    decreases |exs|
  {
    if exs == [] {
      assert [fi.name][1..] == [];
      assert exs + [fi.name] == [fi.name];
    } else {
      assert (exs + [fi.name])[1..] == exs[1..] + [fi.name];
      RelatedSnoc(sch, sch.GetByAny(m, exs[0]).value.target, exs[1..], fi);
    }
  }

  /** The paths generated from the schema are paths `parseRelated` accepts. */
  lemma {:induction false} DepthPathsOk(sch: Schema, depth: int, root: Model, prefix: seq<string>, fi: FieldInfo)
    requires sch.Valid() && RelatedOk(sch, root, prefix) && fi in sch.FieldsRel(RelatedEnd(sch, root, prefix))
    ensures forall r <- DepthPaths(sch, depth, prefix, fi) :: RelatedOk(sch, root, r)
    decreases depth + 1, 1, 0
  {
    if depth >= 0 && !fi.m2m {
      RelatedSnoc(sch, root, prefix, fi);
      FieldPathsOk(sch, depth - 1, root, prefix + [fi.name], sch.FieldsRel(fi.target));
    }
  }

  lemma {:induction false} FieldPathsOk(sch: Schema, depth: int, root: Model, prefix: seq<string>, fields: seq<FieldInfo>)
    requires sch.Valid() && RelatedOk(sch, root, prefix)
    requires forall fi <- fields :: fi in sch.FieldsRel(RelatedEnd(sch, root, prefix))
    ensures forall r <- FieldPaths(sch, depth, prefix, fields) :: RelatedOk(sch, root, r)
    decreases depth + 1, 2, |fields|
  {
    if depth >= -1 && fields != [] {
      DepthPathsOk(sch, depth, root, prefix, fields[0]);
      FieldPathsOk(sch, depth, root, prefix, fields[1..]);
    }
  }

  lemma {:induction false} NoPathsWithoutDepth(sch: Schema, depth: int, prefix: string, fields: seq<FieldInfo>)
    ensures depth < 0 ==> LoopFields(sch, depth, prefix, fields) == []
    decreases |fields|
  {
    if fields != [] {
      NoPathsWithoutDepth(sch, depth, prefix, fields[1..]);
    }
  }

  lemma RequestedOrDeep(sch: Schema, root: Model, rels: seq<string>, depth: int, i: nat)
    requires i < |rels + Generated(sch, root, rels, depth)|
    ensures depth > 0 || i < |rels|
  {
    NoPathsWithoutDepth(sch, (if |rels| != 0 then 0 else depth) - 1, "", sch.FieldsRel(root));
  }

  lemma {:induction false} DepthPathsSeparable(sch: Schema, depth: int, path: seq<string>, fi: FieldInfo)
    requires sch.Valid() && SeparableFields(sch) && SeparablePath(path) && SeparablePath([fi.name])
    ensures forall r <- DepthPaths(sch, depth, path, fi) :: r != [] && SeparablePath(r)
    decreases depth + 1, 1, 0
  {
    if depth >= 0 && !fi.m2m {
      assert [fi.name][0] == fi.name;
      FieldPathsSeparable(sch, depth - 1, path + [fi.name], sch.FieldsRel(fi.target));
    }
  }

  lemma {:induction false} FieldPathsSeparable(sch: Schema, depth: int, path: seq<string>, fields: seq<FieldInfo>)
    requires sch.Valid() && SeparableFields(sch) && SeparablePath(path)
    requires exists m :: fields == [] || (m in sch.rels && forall fi <- fields :: fi in sch.rels[m])
    ensures forall r <- FieldPaths(sch, depth, path, fields) :: r != [] && SeparablePath(r)
    decreases depth + 1, 2, |fields|
  {
    if depth >= -1 && fields != [] {
      var m :| fields == [] || (m in sch.rels && forall fi <- fields :: fi in sch.rels[m]);
      assert fields[0] in sch.rels[m];
      DepthPathsSeparable(sch, depth, path, fields[0]);
      FieldPathsSeparable(sch, depth, path, fields[1..]);
    }
  }

  /** When no relation field has a name with the separator or a low line at its end, every
      generated path is cut back into the path it names, and can be walked. */
  lemma GeneratedOk(sch: Schema, root: Model, rels: seq<string>, depth: int)
    requires sch.Valid() && SeparableFields(sch)
    ensures AllOk(sch, root, Generated(sch, root, rels, depth))
  {
    var fields, d := sch.FieldsRel(root), (if |rels| != 0 then 0 else depth) - 1;
    var paths := FieldPaths(sch, d, [], fields);
    FieldsNamed(sch, root);
    LoopFieldsNames(sch, d, [], fields);
    FieldPathsOk(sch, d, root, [], fields);
    FieldPathsSeparable(sch, d, [], fields);
    forall i | 0 <= i < |paths|
      ensures SplitSep(PathName(paths[i])) == paths[i] && RelatedOk(sch, root, paths[i])
    {
      assert paths[i] in paths;
      SplitsBack(paths[i]);
    }
  }

  lemma FieldsNamed(sch: Schema, m: Model)
    requires sch.Valid()
    ensures forall fi <- sch.FieldsRel(m) :: fi.name != []
  {
    forall fi | fi in sch.FieldsRel(m)
      ensures fi.name != []
    {
      assert (m, fi.name) in sch.lookup;
    }
  }

  /** One relation, to "m", of model "t", with the separator in its name. */
  const DOUBLE := Schema(map[("t", "a__b") := Forward1("a__b", "m")], map["t" := [Forward1("a__b", "m")]], {})

  /** Its only generated path is cut apart and not found, although no two paths share a name. */
  lemma SeparatorInNamePanics()
    ensures DOUBLE.Valid() && Generated(DOUBLE, "t", [], 1) == ["a__b"] && !RelatedOk(DOUBLE, "t", SplitSep("a__b"))
  {
    SplitHead("a", "b");
    SplitWhole("b");
    assert "a" + "__" + "b" == "a__b";
    assert SplitSep("a__b") == ["a", "b"];
    var fi := Forward1("a__b", "m");
    assert DOUBLE.FieldsRel("t") == [fi] && DOUBLE.FieldsRel("m") == [] && [fi][1..] == [];
    assert LoopFields(DOUBLE, -1, "a__b", []) == [];
    assert LoopDepth(DOUBLE, 0, "", fi) == ["a__b"];
    assert LoopFields(DOUBLE, 0, "", [fi]) == LoopDepth(DOUBLE, 0, "", fi) + LoopFields(DOUBLE, 0, "", []);
  }

  // ---- what a valid plan gives the generated SQL ----

  /** One join of `getJoinSQL`: its kind, the alias it introduces and the alias it refers to. */
  datatype Join = Join(inner: bool, alias: string, on: string)

  function GetJoins(p: Plan): seq<Join> {
    seq(|p.tables|, i requires 0 <= i < |p.tables| =>
      var node := p.tables[i];
      Join(node.inner, Alias(node),
           if node.jtl.Some? && node.jtl.value < |p.tables| then Alias(p.tables[node.jtl.value]) else "T0"))
  }

  lemma {:induction false} InnerPathPrefix(sch: Schema, root: Model, skipEnd: bool, names: seq<string>)
    ensures InnerPath(sch, root, skipEnd, names) ==> InnerPath(sch, root, skipEnd, ParentPath(sch, root, names))
    decreases |names|
  {
    if |names| > 1 {
      InnerPathPrefix(sch, root, skipEnd, names[..|names| - 1]);
    }
  }

  lemma AliasesDiffer(a: nat, b: nat)
    requires a != b
    ensures "T" + Itoa(a) != "T" + Itoa(b)
  {
    ItoaValue(a);
    ItoaValue(b);
    assert ("T" + Itoa(a))[1..] == Itoa(a);
    assert ("T" + Itoa(b))[1..] == Itoa(b);
  }

  /** In the joins of a valid plan: aliases are distinct and are the list positions plus one,
      every ON clause refers to T0 or to an alias introduced before, and an INNER JOIN never
      hangs off a LEFT OUTER JOIN. */
  lemma JoinsAreOrdered(sch: Schema, root: Model, skipEnd: bool, p: Plan, i: nat)
    requires ValidPlan(sch, root, skipEnd, p) && i < |p.tables|
    ensures var joins := GetJoins(p);
      && joins[i].alias == "T" + Itoa(i + 1)
      && (forall k :: 0 <= k < |joins| && k != i ==> joins[k].alias != joins[i].alias)
      && (joins[i].on == "T0" || exists k :: 0 <= k < i && joins[k].alias == joins[i].on && (joins[i].inner ==> joins[k].inner))
  {
    var joins, node := GetJoins(p), p.tables[i];
    assert ValidNode(sch, root, skipEnd, p, i);
    forall k: nat | k < |joins| && k != i
      ensures joins[k].alias != joins[i].alias
    {
      assert ValidNode(sch, root, skipEnd, p, k);
      AliasesDiffer(k + 1, i + 1);
    }
    if node.jtl.Some? {
      var k := node.jtl.value;
      assert ValidNode(sch, root, skipEnd, p, k);
      InnerPathPrefix(sch, root, skipEnd, node.names);
      assert joins[k].alias == joins[i].on;
    }
  }
}
