/** Which paths `loopDepth` of `client/orm/db_tables.go` generates for `RelatedSel`. */
module JoinPaths {
  import opened Text
  import opened JoinPlan

  /** A path along relations to one model, from `m` on. */
  ghost predicate AlongRelations(sch: Schema, m: Model, names: seq<string>)
    decreases |names|, 0
  {
    names == [] || Begins(sch, sch.FieldsRel(m), names)
  }

  ghost predicate Begins(sch: Schema, fields: seq<FieldInfo>, names: seq<string>)
    requires names != []
    decreases |names| - 1, 1
  {
    exists fi <- fields :: !fi.m2m && fi.name == names[0] && AlongRelations(sch, fi.target, names[1..])
  }

  /** `r` continues `prefix` by between one and `n` steps. */
  ghost predicate Continues(r: seq<string>, prefix: seq<string>, n: int) { |prefix| < |r| <= |prefix| + n && r[..|prefix|] == prefix }

  lemma {:induction false} DepthPathsAre(sch: Schema, depth: int, prefix: seq<string>, fi: FieldInfo, r: seq<string>)
    ensures r in DepthPaths(sch, depth, prefix, fi) <==>
            && Continues(r, prefix, depth + 1) && !fi.m2m && r[|prefix|] == fi.name
            && AlongRelations(sch, fi.target, r[|prefix| + 1..])
    decreases depth + 1, 1, 0
  {
    if depth >= 0 && !fi.m2m {
      var next, k := prefix + [fi.name], |prefix|;
      FieldPathsAre(sch, depth - 1, next, sch.FieldsRel(fi.target), r);
      assert r in DepthPaths(sch, depth, prefix, fi) <==> r == next || r in FieldPaths(sch, depth - 1, next, sch.FieldsRel(fi.target));
      if |r| > k && r[..k] == prefix && r[k] == fi.name {
        assert r[..k + 1] == next;
        assert |r| == k + 1 ==> r == next && r[k + 1..] == [];
      }
      if |r| > k && r[..k + 1] == next {
        assert r[..k] == r[..k + 1][..k] == prefix && r[k] == r[..k + 1][k] == fi.name;
      }
    }
  }

  lemma {:induction false} FieldPathsAre(sch: Schema, depth: int, prefix: seq<string>, fields: seq<FieldInfo>, r: seq<string>)
    ensures r in FieldPaths(sch, depth, prefix, fields) <==>
            Continues(r, prefix, depth + 1) && Begins(sch, fields, r[|prefix|..])
    decreases depth + 1, 2, |fields|
  {
    if depth >= -1 && fields != [] {
      DepthPathsAre(sch, depth, prefix, fields[0], r);
      FieldPathsAre(sch, depth, prefix, fields[1..], r);
      if Continues(r, prefix, depth + 1) {
        FirstBegins(sch, fields, r, |prefix|);
      }
    }
  }

  lemma FirstBegins(sch: Schema, fields: seq<FieldInfo>, r: seq<string>, k: nat)
    requires fields != [] && k < |r|
    ensures var rest := r[k..];
      Begins(sch, fields, rest) <==>
      (!fields[0].m2m && fields[0].name == r[k] && AlongRelations(sch, fields[0].target, r[k + 1..])) || Begins(sch, fields[1..], rest)
  {
    var rest := r[k..];
    assert rest[0] == r[k] && rest[1..] == r[k + 1..];
    assert forall fi :: fi in fields <==> fi == fields[0] || fi in fields[1..];
  }

  /** Without requested paths, the paths that `RelatedSel` joins are exactly those along relations
      to one model, of at most `depth` steps; with requested ones none is added. */
  lemma GeneratedAre(sch: Schema, root: Model, rels: seq<string>, depth: int) returns (paths: seq<seq<string>>)
    requires sch.Valid()
    ensures Generated(sch, root, rels, depth) == NamesOf(paths)
    ensures forall r :: r in paths <==> rels == [] && 1 <= |r| <= depth && AlongRelations(sch, root, r)
  {
    var fields, d := sch.FieldsRel(root), (if |rels| != 0 then 0 else depth) - 1;
    paths := FieldPaths(sch, d, [], fields);
    FieldsNamed(sch, root);
    LoopFieldsNames(sch, d, [], fields);
    forall r
      ensures r in paths <==> rels == [] && 1 <= |r| <= depth && AlongRelations(sch, root, r)
    {
      FieldPathsAre(sch, d, [], fields, r);
      assert r[0..] == r;
    }
  }
}
