/**
  Deletion with its relation policies: `Delete`, `DeleteBatch` and `deleteRels` of
  `client/orm/db.go`.  The database is a map from row identities to rows, a row a map from
  foreign-key fields to the key they hold.
 */
module CascadeDelete {
  import opened Text

  type Model = string
  type Field = string
  type Key = int

  datatype OnDelete = Cascade | SetNull | SetDefault(key: Key) | DoNothing

  /** A foreign key: the field of a child model that holds keys of `parent`.  `inner` is
      `!Null && !Mi.IsThrough`: a condition on the field joins the parent's table, by an inner
      join unless the field may be null, and not at all in a many-to-many table. */
  datatype Relation = Relation(parent: Model, onDelete: OnDelete, inner: bool)

  datatype RowId = RowId(model: Model, key: Key)

  type Row = map<Field, Option<Key>>

  type Rows = map<RowId, Row>

  type FieldId = (Model, Field)

  /** `reverse` is `mi.Fields.FieldsReverse`: for each model, the foreign keys that point at it
      and that `deleteRels` walks. */
  datatype Schema = Schema(relations: map<FieldId, Relation>, reverse: map<Model, seq<FieldId>>)
  {
    /** Registration asks for a field that may be null where deletion sets null. */
    predicate Valid() {
      && (forall m <- reverse :: forall f <- reverse[m] :: f in relations && relations[f].parent == m)
      && (forall f <- relations :: relations[f].onDelete.SetNull? ==> !relations[f].inner)
    }

    function Reverse(m: Model): seq<FieldId> { if m in reverse then reverse[m] else [] }

    /** The relation is one that a deletion of its parent looks at. */
    predicate Listed(f: FieldId) { f in relations && f in Reverse(relations[f].parent) }
  }

  function Value(rows: Rows, id: RowId, f: Field): Option<Key> {
    if id in rows && f in rows[id] then rows[id][f] else None
  }

  // ---- what a deletion may do ----

  /** Field `f` of some row held `v`, and the row it pointed at is gone: deleted since `before`,
      or one of the rows `m`/`args` whose foreign keys `done` were already looked at. */
  ghost predicate Hit(sch: Schema, before: Rows, after: Rows, m: Model, args: set<Key>, done: seq<FieldId>,
                      f: FieldId, v: Option<Key>)
  {
    && v.Some? && sch.Listed(f)
    && var parent := sch.relations[f].parent;
       || RowId(parent, v.value) in before.Keys - after.Keys
       || (parent == m && v.value in args && f in done)
  }

  /** What becomes of a reference `v` to a gone row.  The update that sets it runs after the row
      is gone, so behind an inner join it finds nothing. */
  ghost function Policy(r: Relation, v: Option<Key>): Option<Key> {
    if r.inner then v
    else
      match r.onDelete
      case SetNull => None
      case SetDefault(d) => Some(d)
      case _ => v
  }

  /** Rows only disappear; every reference of a remaining row to a gone row was treated by
      its policy, every other field is as before, and no cascade reference to a gone row remains. */
  ghost predicate Effect(sch: Schema, before: Rows, after: Rows, m: Model, args: set<Key>, done: seq<FieldId>) {
    && after.Keys <= before.Keys
    && forall id <- after :: RowEffect(sch, before, after, m, args, done, id)
  }

  ghost predicate RowEffect(sch: Schema, before: Rows, after: Rows, m: Model, args: set<Key>, done: seq<FieldId>, id: RowId) {
    forall f :: FieldEffect(sch, before, after, m, args, done, id, f)
  }

  ghost predicate FieldEffect(sch: Schema, before: Rows, after: Rows, m: Model, args: set<Key>, done: seq<FieldId>,
                              id: RowId, f: Field)
  {
    var v := Value(before, id, f);
    if Hit(sch, before, after, m, args, done, (id.model, f), v) then
      && !sch.relations[(id.model, f)].onDelete.Cascade?
      && Value(after, id, f) == Policy(sch.relations[(id.model, f)], v)
    else
      Value(after, id, f) == v
  }

  /** `s` holds every row with a cascade reference into `s`. */
  ghost predicate Closed(sch: Schema, rows: Rows, s: set<RowId>) {
    forall id <- rows, f: Field :: PointsInto(sch, rows, id, f, s) ==> id in s
  }

  ghost predicate PointsInto(sch: Schema, rows: Rows, id: RowId, f: Field, s: set<RowId>) {
    && sch.Listed((id.model, f)) && sch.relations[(id.model, f)].onDelete.Cascade?
    && Value(rows, id, f).Some? && RowId(sch.relations[(id.model, f)].parent, Value(rows, id, f).value) in s
  }

  ghost function RowsOf(m: Model, args: set<Key>): set<RowId> { set k | k in args :: RowId(m, k) }

  /** Everything deleted lies in every closed set that holds the chosen rows. */
  ghost predicate Least(sch: Schema, before: Rows, after: Rows, seeds: set<RowId>) {
    forall s: set<RowId> :: Closed(sch, before, s) && seeds <= s ==> before.Keys - after.Keys <= s
  }

  // ---- composing effects ----

  lemma FieldCompose(sch: Schema, a: Rows, b: Rows, c: Rows, m: Model, args: set<Key>, done: seq<FieldId>,
                     m': Model, id: RowId, f: Field)
    requires a.Keys >= b.Keys >= c.Keys && id in c
    requires FieldEffect(sch, a, b, m, args, done, id, f)
    requires FieldEffect(sch, b, c, m', {}, [], id, f)
    ensures FieldEffect(sch, a, c, m, args, done, id, f)
  {
  }

  lemma Compose(sch: Schema, a: Rows, b: Rows, c: Rows, m: Model, args: set<Key>, done: seq<FieldId>, m': Model)
    requires Effect(sch, a, b, m, args, done) && Effect(sch, b, c, m', {}, [])
    ensures Effect(sch, a, c, m, args, done)
  {
    forall id, f | id in c
      ensures FieldEffect(sch, a, c, m, args, done, id, f)
    {
      assert RowEffect(sch, a, b, m, args, done, id) && RowEffect(sch, b, c, m', {}, [], id);
      FieldCompose(sch, a, b, c, m, args, done, m', id, f);
    }
  }

  /** Cascade fields never change, so closedness survives an effect. */
  lemma ClosedAfter(sch: Schema, a: Rows, b: Rows, m: Model, args: set<Key>, done: seq<FieldId>, s: set<RowId>)
    requires Effect(sch, a, b, m, args, done) && Closed(sch, a, s)
    ensures Closed(sch, b, s)
  {
    forall id, f | id in b && PointsInto(sch, b, id, f, s)
      ensures id in s
    {
      assert RowEffect(sch, a, b, m, args, done, id);
      assert FieldEffect(sch, a, b, m, args, done, id, f);
      assert PointsInto(sch, a, id, f, s);
    }
  }

  lemma LeastAfter(sch: Schema, a: Rows, b: Rows, c: Rows, m: Model, args: set<Key>, done: seq<FieldId>,
                   f: FieldId, chosen: set<RowId>)
    requires Effect(sch, a, b, m, args, done) && Least(sch, a, b, RowsOf(m, args)) && c.Keys <= b.Keys
    requires Least(sch, b, c, chosen)
    requires sch.Listed(f) && sch.relations[f].parent == m && sch.relations[f].onDelete.Cascade?
    requires forall id <- chosen :: id in b && id.model == f.0 && Value(b, id, f.1).Some? && Value(b, id, f.1).value in args
    ensures Least(sch, a, c, RowsOf(m, args))
  {
    forall s: set<RowId> | Closed(sch, a, s) && RowsOf(m, args) <= s
      ensures a.Keys - c.Keys <= s
    {
      ClosedAfter(sch, a, b, m, args, done, s);
      forall id | id in chosen
        ensures id in s
      {
        assert RowId(m, Value(b, id, f.1).value) in RowsOf(m, args);
        assert PointsInto(sch, b, id, f.1, s);
      }
    }
  }

  /** A cascade field is done once no remaining row holds one of the keys. */
  lemma CascadeDone(sch: Schema, a: Rows, c: Rows, m: Model, args: set<Key>, done: seq<FieldId>, f: FieldId)
    requires Effect(sch, a, c, m, args, done)
    requires sch.Listed(f) && sch.relations[f].parent == m && sch.relations[f].onDelete.Cascade?
    requires forall id <- c :: id.model == f.0 && Value(c, id, f.1).Some? ==> Value(c, id, f.1).value !in args
    ensures Effect(sch, a, c, m, args, done + [f])
  {
    forall id, g | id in c
      ensures FieldEffect(sch, a, c, m, args, done + [f], id, g)
    {
      assert RowEffect(sch, a, c, m, args, done, id);
      assert FieldEffect(sch, a, c, m, args, done, id, g);
    }
  }

  /** Deleting the rows that hold one of the keys leaves none that does. */
  lemma NoneHolds(sch: Schema, b: Rows, c: Rows, f: FieldId, args: set<Key>)
    requires Effect(sch, b, c, f.0, {}, [])
    requires sch.Listed(f) && sch.relations[f].onDelete.Cascade?
    requires forall id <- b :: id.model == f.0 && Value(b, id, f.1).Some? && Value(b, id, f.1).value in args ==> id !in c
    ensures forall id <- c :: id.model == f.0 && Value(c, id, f.1).Some? ==> Value(c, id, f.1).value !in args
  {
    forall id | id in c && id.model == f.0
      ensures Value(c, id, f.1) == Value(b, id, f.1)
    {
      assert RowEffect(sch, b, c, f.0, {}, [], id);
      assert FieldEffect(sch, b, c, f.0, {}, [], id, f.1);
    }
  }

  lemma NothingDone(sch: Schema, a: Rows, c: Rows, m: Model, args: set<Key>, done: seq<FieldId>, f: FieldId)
    requires Effect(sch, a, c, m, args, done)
    requires sch.Listed(f) && sch.relations[f].parent == m && sch.relations[f].onDelete.DoNothing?
    ensures Effect(sch, a, c, m, args, done + [f])
  {
    forall id, g | id in c
      ensures FieldEffect(sch, a, c, m, args, done + [f], id, g)
    {
      assert RowEffect(sch, a, c, m, args, done, id);
      assert FieldEffect(sch, a, c, m, args, done, id, g);
    }
  }

  /** Row `id` is one the statement `UPDATE child JOIN parent SET f = value WHERE f IN (args)`
      finds: its field holds one of the keys and, behind an inner join, its parent row exists. */
  predicate Finds(b: Rows, id: RowId, f: FieldId, r: Relation, args: set<Key>) {
    && id in b && id.model == f.0 && Value(b, id, f.1).Some? && Value(b, id, f.1).value in args
    && (r.inner ==> RowId(r.parent, Value(b, id, f.1).value) in b)
  }

  /** That statement: field `f` of the rows it finds is set, everything else stays. */
  ghost predicate Updated(b: Rows, c: Rows, f: FieldId, r: Relation, args: set<Key>, value: Option<Key>) {
    && c.Keys == b.Keys
    && forall id, g :: Value(c, id, g) == if g == f.1 && Finds(b, id, f, r, args) then value else Value(b, id, g)
  }

  function Rewritten(b: Rows, f: FieldId, r: Relation, args: set<Key>, value: Option<Key>): Rows {
    map id | id in b :: if Finds(b, id, f, r, args) then b[id][f.1 := value] else b[id]
  }

  lemma RewrittenIsUpdated(b: Rows, f: FieldId, r: Relation, args: set<Key>, value: Option<Key>)
    ensures Updated(b, Rewritten(b, f, r, args, value), f, r, args, value)
  {
    var c := Rewritten(b, f, r, args, value);
    forall id, g
      ensures Value(c, id, g) == if g == f.1 && Finds(b, id, f, r, args) then value else Value(b, id, g)
    {
      if id in b {
        assert c[id] == if Finds(b, id, f, r, args) then b[id][f.1 := value] else b[id];
      }
    }
  }

  /** With the parent rows gone, the statement does what the policy says. */
  lemma UpdateDone(sch: Schema, a: Rows, b: Rows, c: Rows, m: Model, args: set<Key>, done: seq<FieldId>, f: FieldId, value: Option<Key>)
    requires Effect(sch, a, b, m, args, done) && RowsOf(m, args) !! b.Keys
    requires sch.Listed(f) && sch.relations[f].parent == m
    requires sch.relations[f].onDelete == (if value.None? then SetNull else SetDefault(value.value))
    requires Updated(b, c, f, sch.relations[f], args, value)
    ensures Effect(sch, a, c, m, args, done + [f])
  {
    forall id, g | id in c
      ensures FieldEffect(sch, a, c, m, args, done + [f], id, g)
    {
      assert RowEffect(sch, a, b, m, args, done, id);
      assert FieldEffect(sch, a, b, m, args, done, id, g);
      UpdateOne(sch, a, b, c, m, args, done, f, value, id, g);
    }
  }

  lemma UpdateOne(sch: Schema, a: Rows, b: Rows, c: Rows, m: Model, args: set<Key>, done: seq<FieldId>, f: FieldId, value: Option<Key>,
                  id: RowId, g: Field)
    requires FieldEffect(sch, a, b, m, args, done, id, g) && RowsOf(m, args) !! b.Keys && id in c
    requires sch.Listed(f) && sch.relations[f].parent == m
    requires sch.relations[f].onDelete == (if value.None? then SetNull else SetDefault(value.value))
    requires Updated(b, c, f, sch.relations[f], args, value)
    ensures FieldEffect(sch, a, c, m, args, done + [f], id, g)
  {
    var v := Value(b, id, g);
    assert v.Some? && v.value in args ==> RowId(m, v.value) in RowsOf(m, args);
    assert (id.model, g) in done + [f] <==> (id.model, g) in done || (id.model, g) == f;
  }

  /** Removing the chosen rows first and walking their relations afterwards is one deletion. */
  lemma RemovedThenRels(sch: Schema, a: Rows, b: Rows, c: Rows, m: Model, args: set<Key>)
    requires sch.Valid() && b == a - RowsOf(m, args) && RowsOf(m, args) <= a.Keys
    requires Effect(sch, b, c, m, args, sch.Reverse(m)) && Least(sch, b, c, RowsOf(m, args))
    ensures Effect(sch, a, c, m, {}, []) && Least(sch, a, c, RowsOf(m, args))
  {
    forall id, f | id in c
      ensures FieldEffect(sch, a, c, m, {}, [], id, f)
    {
      assert RowEffect(sch, b, c, m, args, sch.Reverse(m), id);
      assert FieldEffect(sch, b, c, m, args, sch.Reverse(m), id, f);
    }
    forall s: set<RowId> | Closed(sch, a, s) && RowsOf(m, args) <= s
      ensures a.Keys - c.Keys <= s
    {
      forall id, f | id in b && PointsInto(sch, b, id, f, s)
        ensures id in s
      {
        assert PointsInto(sch, a, id, f, s);
      }
    }
  }

  lemma FewerRows(a: Rows, b: Rows)
    requires b.Keys <= a.Keys
    ensures |b| <= |a|
    ensures b.Keys != a.Keys ==> |b| < |a|
  {
    var rest := a.Keys - b.Keys;
    assert a.Keys == b.Keys + rest;
    assert |a.Keys| == |b.Keys| + |rest|;
    assert |a| == |a.Keys| && |b| == |b.Keys|;
    if b.Keys != a.Keys {
      assert rest != {};
    }
  }

  class Database {
    const schema: Schema
    var rows: Rows

    constructor (schema: Schema, rows: Rows)
      ensures this.schema == schema && this.rows == rows
    {
      this.schema, this.rows := schema, rows;
    }

    /** The update of `deleteRels`, with the join its condition brings in. */
    method UpdateBatch(f: FieldId, args: set<Key>, value: Option<Key>)
      requires f in schema.relations
      modifies this
      ensures Updated(old(rows), rows, f, schema.relations[f], args, value)
    {
      RewrittenIsUpdated(rows, f, schema.relations[f], args, value);
      rows := Rewritten(rows, f, schema.relations[f], args, value);
    }

    /** Applies the policy of every relation to the deleted rows `m`/`args`. */
    method DeleteRels(m: Model, args: set<Key>)
      requires schema.Valid() && RowsOf(m, args) !! rows.Keys
      modifies this
      ensures Effect(schema, old(rows), rows, m, args, schema.Reverse(m))
      ensures Least(schema, old(rows), rows, RowsOf(m, args))
      decreases |rows|, 1
    {
      var fields := schema.Reverse(m);
      ghost var before := rows;
      for i := 0 to |fields|
        invariant Effect(schema, before, rows, m, args, fields[..i])
        invariant Least(schema, before, rows, RowsOf(m, args))
      {
        var f := fields[i];
        ghost var mid := rows;
        assert fields[..i + 1] == fields[..i] + [f];
        match schema.relations[f].onDelete {
          case Cascade =>
            FewerRows(before, rows);
            var holds := (db: Rows, id: RowId) => Value(db, id, f.1).Some? && Value(db, id, f.1).value in args;
            var _ := DeleteBatch(f.0, holds);
            assert forall id <- mid :: id.model == f.0 && holds(mid, id) ==> id in Chosen(mid, f.0, holds);
            NoneHolds(schema, mid, rows, f, args);
            Compose(schema, before, mid, rows, m, args, fields[..i], f.0);
            LeastAfter(schema, before, mid, rows, m, args, fields[..i], f, Chosen(mid, f.0, holds));
            CascadeDone(schema, before, rows, m, args, fields[..i], f);
          case DoNothing =>
            NothingDone(schema, before, rows, m, args, fields[..i], f);
          case SetNull =>
            UpdateBatch(f, args, None);
            UpdateDone(schema, before, mid, rows, m, args, fields[..i], f, None);
          case SetDefault(d) =>
            UpdateBatch(f, args, Some(d));
            UpdateDone(schema, before, mid, rows, m, args, fields[..i], f, Some(d));
        }
      }
      assert fields[..|fields|] == fields;
    }

    /** Selects keys by the condition, deletes those rows, then walks the relations. */
    method DeleteBatch(m: Model, where: (Rows, RowId) -> bool) returns (num: nat)
      requires schema.Valid()
      modifies this
      ensures Deletion(schema, old(rows), rows, m, Chosen(old(rows), m, where))
      ensures num == |Chosen(old(rows), m, where)|
      decreases |rows|, 0
    {
      var chosen := Chosen(rows, m, where);
      if chosen == {} {
        return 0;
      }
      var args := set id | id in chosen :: id.key;
      assert RowsOf(m, args) == chosen by {
        forall id | id in chosen
          ensures id in RowsOf(m, args)
        {
          assert id == RowId(m, id.key);
        }
      }
      ghost var before := rows;
      rows := rows - chosen;
      FewerRows(before, rows);
      ghost var mid := rows;
      DeleteRels(m, args);
      RemovedThenRels(schema, before, mid, rows, m, args);
      return |chosen|;
    }
  }

  function Chosen(rows: Rows, m: Model, where: (Rows, RowId) -> bool): set<RowId> {
    set id | id in rows && id.model == m && where(rows, id)
  }

  /** Delete by primary key is the same deletion with at most one chosen row. */
  method Delete(db: Database, m: Model, pk: Key) returns (num: nat)
    requires db.schema.Valid()
    modifies db
    ensures Effect(db.schema, old(db.rows), db.rows, m, {}, [])
    ensures RowId(m, pk) !in db.rows
    ensures RowId(m, pk) in old(db.rows) ==> num == 1 && Deletion(db.schema, old(db.rows), db.rows, m, {RowId(m, pk)})
    ensures RowId(m, pk) !in old(db.rows) ==> num == 0 && db.rows == old(db.rows)
  {
    ghost var before := db.rows;
    var chosen := if RowId(m, pk) in db.rows then {RowId(m, pk)} else {};
    if chosen == {} {
      return 0;
    }
    db.rows := db.rows - chosen;
    ghost var mid := db.rows;
    assert RowsOf(m, {pk}) == {RowId(m, pk)};
    db.DeleteRels(m, {pk});
    RemovedThenRels(db.schema, before, mid, db.rows, m, {pk});
    return 1;
  }

  // ---- what the effect means ----

  lemma SurvivorsPointAtSurvivors(sch: Schema, before: Rows, after: Rows, m: Model, id: RowId, f: Field)
    requires Effect(sch, before, after, m, {}, []) && id in after
    ensures !PointsInto(sch, before, id, f, before.Keys - after.Keys)
  {
    assert RowEffect(sch, before, after, m, {}, [], id);
    assert FieldEffect(sch, before, after, m, {}, [], id, f);
  }

  /** The rows removed are closed under cascade references: with `Least`, they are exactly the
      closure of the chosen rows. */
  lemma DeletedIsClosed(sch: Schema, before: Rows, after: Rows, m: Model)
    requires Effect(sch, before, after, m, {}, [])
    ensures Closed(sch, before, before.Keys - after.Keys)
  {
    forall id, f: Field | id in after
      ensures !PointsInto(sch, before, id, f, before.Keys - after.Keys)
    {
      SurvivorsPointAtSurvivors(sch, before, after, m, id, f);
    }
  }

  /** The rows reached from the seeds by cascade references: those in every closed set that
      holds the seeds. */
  ghost function ClosureOf(sch: Schema, rows: Rows, seeds: set<RowId>): set<RowId> {
    set id | id in rows && forall s: set<RowId> :: Closed(sch, rows, s) && seeds <= s ==> id in s
  }

  /** What a deletion does, told from the rows before it: exactly the closure of the seeds goes,
      and every remaining reference follows its policy. */
  ghost predicate Deletion(sch: Schema, before: Rows, after: Rows, m: Model, seeds: set<RowId>) {
    && Effect(sch, before, after, m, {}, []) && Least(sch, before, after, seeds)
    && seeds <= before.Keys && seeds !! after.Keys
  }

  /** Exactly the closure of the chosen rows is deleted. */
  lemma DeletedIsClosure(sch: Schema, before: Rows, after: Rows, m: Model, seeds: set<RowId>)
    requires Deletion(sch, before, after, m, seeds)
    ensures before.Keys - after.Keys == ClosureOf(sch, before, seeds)
  {
    DeletedIsClosed(sch, before, after, m);
  }

  /** The result does not depend on the order in which relations are walked. */
  lemma OneResult(sch: Schema, before: Rows, a: Rows, b: Rows, m: Model, seeds: set<RowId>)
    requires Deletion(sch, before, a, m, seeds) && Deletion(sch, before, b, m, seeds)
    ensures a.Keys == b.Keys
    ensures forall id, f :: Value(a, id, f) == Value(b, id, f)
  {
    DeletedIsClosure(sch, before, a, m, seeds);
    DeletedIsClosure(sch, before, b, m, seeds);
    assert a.Keys == before.Keys - ClosureOf(sch, before, seeds) == b.Keys;
    forall id, f
      ensures Value(a, id, f) == Value(b, id, f)
    {
      if id in a {
        assert RowEffect(sch, before, a, m, {}, [], id) && RowEffect(sch, before, b, m, {}, [], id);
        assert FieldEffect(sch, before, a, m, {}, [], id, f) && FieldEffect(sch, before, b, m, {}, [], id, f);
      }
    }
  }

  /** Field `f` of row `id` names a row that does not exist. */
  ghost predicate Dangles(sch: Schema, rows: Rows, id: RowId, f: Field) {
    && id in rows && (id.model, f) in sch.relations && Value(rows, id, f).Some?
    && RowId(sch.relations[(id.model, f)].parent, Value(rows, id, f).value) !in rows
  }

  ghost predicate NoDangling(sch: Schema, rows: Rows) {
    forall id <- rows, f: Field :: !Dangles(sch, rows, id, f)
  }

  /** A row outside the closure would be left with a hanging reference: it points into the
      closure by a relation that is not walked or does nothing, that sets a value behind an inner
      join, or whose default names no row outside the closure. */
  ghost predicate LeftHanging(sch: Schema, before: Rows, seeds: set<RowId>, id: RowId, f: Field) {
    && id in before && id !in ClosureOf(sch, before, seeds)
    && (id.model, f) in sch.relations && Value(before, id, f).Some?
    && var r := sch.relations[(id.model, f)];
       && RowId(r.parent, Value(before, id, f).value) in ClosureOf(sch, before, seeds)
       && (!sch.Listed((id.model, f)) || r.onDelete.DoNothing?
           || (r.inner && !r.onDelete.Cascade?)
           || (r.onDelete.SetDefault? && RowId(r.parent, r.onDelete.key) !in before.Keys - ClosureOf(sch, before, seeds)))
  }

  lemma HangingIffDangling(sch: Schema, before: Rows, after: Rows, m: Model, seeds: set<RowId>, id: RowId, f: Field)
    requires Deletion(sch, before, after, m, seeds) && NoDangling(sch, before)
    ensures Dangles(sch, after, id, f) <==> LeftHanging(sch, before, seeds, id, f)
  {
    DeletedIsClosure(sch, before, after, m, seeds);
    if id in after {
      assert !Dangles(sch, before, id, f);
      assert RowEffect(sch, before, after, m, {}, [], id);
      assert FieldEffect(sch, before, after, m, {}, [], id, f);
    }
  }

  /** Starting without dangling references, a deletion leaves none if and only if no row of the
      database before it is left hanging; in particular, when every relation is walked and
      either cascades or sets null. */
  lemma NoDanglingIff(sch: Schema, before: Rows, after: Rows, m: Model, seeds: set<RowId>)
    requires Deletion(sch, before, after, m, seeds) && NoDangling(sch, before)
    ensures NoDangling(sch, after) <==> forall id <- before, f: Field :: !LeftHanging(sch, before, seeds, id, f)
    ensures sch.Valid() && (forall f <- sch.relations :: sch.Listed(f) && (sch.relations[f].onDelete.Cascade? || sch.relations[f].onDelete.SetNull?))
            ==> NoDangling(sch, after)
  {
    forall id, f: Field
      ensures Dangles(sch, after, id, f) <==> LeftHanging(sch, before, seeds, id, f)
    {
      HangingIffDangling(sch, before, after, m, seeds, id, f);
    }
  }

  const DO_NOTHING := Schema(map[("child", "up") := Relation("parent", DoNothing, true)], map["parent" := [("child", "up")]])

  const FAMILY: Rows := map[RowId("parent", 1) := map[], RowId("child", 1) := map["up" := Some(1)]]

  /** A child that points at its parent by a do-nothing relation dangles when the parent goes. */
  lemma DoNothingDangles(after: Rows)
    requires Deletion(DO_NOTHING, FAMILY, after, "parent", {RowId("parent", 1)})
    ensures DO_NOTHING.Valid() && NoDangling(DO_NOTHING, FAMILY) && Dangles(DO_NOTHING, after, RowId("child", 1), "up")
  {
    var seeds, child := {RowId("parent", 1)}, RowId("child", 1);
    assert Closed(DO_NOTHING, FAMILY, seeds);
    assert child !in ClosureOf(DO_NOTHING, FAMILY, seeds);
    HangingIffDangling(DO_NOTHING, FAMILY, after, "parent", seeds, child, "up");
  }

  /** The foreign key "up" of "child", with default 2 and not null. */
  const NOT_NULL := Schema(map[("child", "up") := Relation("parent", SetDefault(2), true)], map["parent" := [("child", "up")]])

  const TWO_PARENTS: Rows :=
    map[RowId("parent", 1) := map[], RowId("parent", 2) := map[], RowId("child", 1) := map["up" := Some(1)]]

  /** Although its default names a row that stays, a set-default reference that may not be null
      keeps its old key when the parent goes, and dangles. */
  lemma SetDefaultIsNotSet(after: Rows)
    requires Deletion(NOT_NULL, TWO_PARENTS, after, "parent", {RowId("parent", 1)})
    ensures NOT_NULL.Valid() && NoDangling(NOT_NULL, TWO_PARENTS) && RowId("parent", 2) in after
    ensures Value(after, RowId("child", 1), "up") == Some(1) && Dangles(NOT_NULL, after, RowId("child", 1), "up")
  {
    var seeds, child := {RowId("parent", 1)}, RowId("child", 1);
    assert Closed(NOT_NULL, TWO_PARENTS, seeds);
    DeletedIsClosure(NOT_NULL, TWO_PARENTS, after, "parent", seeds);
    assert child !in ClosureOf(NOT_NULL, TWO_PARENTS, seeds) && RowId("parent", 2) !in ClosureOf(NOT_NULL, TWO_PARENTS, seeds);
    assert child in after;
    assert RowEffect(NOT_NULL, TWO_PARENTS, after, "parent", {}, [], child);
    assert FieldEffect(NOT_NULL, TWO_PARENTS, after, "parent", {}, [], child, "up");
    HangingIffDangling(NOT_NULL, TWO_PARENTS, after, "parent", seeds, child, "up");
  }

  /** A set-default relation puts its default exactly when the field may be null or belongs to a
      many-to-many table; otherwise it leaves every reference as it was. */
  lemma DefaultIsSetIff(sch: Schema, before: Rows, after: Rows, m: Model, seeds: set<RowId>, id: RowId, f: Field, d: Key)
    requires Deletion(sch, before, after, m, seeds) && id in after && sch.Listed((id.model, f))
    requires sch.relations[(id.model, f)].onDelete == SetDefault(d) && Value(before, id, f).Some?
    requires Value(before, id, f).value != d
    requires RowId(sch.relations[(id.model, f)].parent, Value(before, id, f).value) in ClosureOf(sch, before, seeds)
    ensures Value(after, id, f) == (if sch.relations[(id.model, f)].inner then Value(before, id, f) else Some(d))
    ensures Value(after, id, f) == Some(d) <==> !sch.relations[(id.model, f)].inner
  {
    DeletedIsClosure(sch, before, after, m, seeds);
    assert RowEffect(sch, before, after, m, {}, [], id);
    assert FieldEffect(sch, before, after, m, {}, [], id, f);
  }
}
