/**
  Reading rows back: the SELECT list of `readSQL` against the column slicing of `ReadBatch`,
  both in `client/orm/db.go`, for a plan built by `parseRelated` and `parseExprs`.
 */
module RowDecode {
  import opened Text
  import opened JoinPlan

  /** The number of columns of a model, `len(mi.Fields.DBcols)`. */
  type Columns = Model -> nat

  // ---- the columns a query selects ----

  /** A selected column: the position of its table plus one, 0 for T0, and its number there. */
  datatype Label = Label(table: nat, column: nat)

  ghost function Block(table: nat, n: nat): seq<Label> { seq(n, c requires 0 <= c < n => Label(table, c)) }

  /** The SELECT list: the columns of T0, then those of each selected table in list order. */
  ghost function SelectList(tCols: nat, tables: seq<Node>, cols: Columns): seq<Label> {
    if tables == [] then Block(0, tCols)
    else
      var n := |tables| - 1;
      SelectList(tCols, tables[..n], cols) + if tables[n].sel then Block(n + 1, cols(tables[n].mi)) else []
  }

  /** Where the block of table `i` starts. */
  ghost function Offset(tCols: nat, tables: seq<Node>, cols: Columns, i: nat): nat
    requires i <= |tables|
  {
    if i == 0 then tCols
    else Offset(tCols, tables, cols, i - 1) + if tables[i - 1].sel then cols(tables[i - 1].mi) else 0
  }

  lemma {:induction false} OffsetPrefix(tCols: nat, tables: seq<Node>, cols: Columns, i: nat, n: nat)
    requires i <= n <= |tables|
    ensures Offset(tCols, tables[..n], cols, i) == Offset(tCols, tables, cols, i)
  {
    if i > 0 {
      OffsetPrefix(tCols, tables, cols, i - 1, n);
    }
  }

  lemma {:induction false} OffsetMonotone(tCols: nat, tables: seq<Node>, cols: Columns, i: nat, j: nat)
    requires i <= j <= |tables|
    ensures Offset(tCols, tables, cols, i) <= Offset(tCols, tables, cols, j)
    decreases j
  {
    if i < j {
      OffsetMonotone(tCols, tables, cols, i, j - 1);
    }
  }

  /** The columns of table `i` stand at its offset. */
  ghost predicate BlockInPlace(list: seq<Label>, tCols: nat, tables: seq<Node>, cols: Columns, i: nat)
    requires i < |tables|
  {
    var a := Offset(tCols, tables, cols, i);
    var b := a + cols(tables[i].mi);
    b <= |list| && list[a..b] == Block(i + 1, cols(tables[i].mi))
  }

  lemma BlockStays(list: seq<Label>, more: seq<Label>, tCols: nat, tables: seq<Node>, cols: Columns, n: nat, i: nat)
    requires i < n <= |tables| && BlockInPlace(list, tCols, tables[..n], cols, i)
    ensures BlockInPlace(list + more, tCols, tables, cols, i)
  {
    OffsetPrefix(tCols, tables, cols, i, n);
    assert tables[..n][i] == tables[i];
    var a := Offset(tCols, tables, cols, i);
    var b := a + cols(tables[i].mi);
    assert (list + more)[a..b] == list[a..b];
  }

  /** The list is as long as all blocks together, and the block at a table's offset is its own. */
  lemma {:induction false} SelectListBlocks(tCols: nat, tables: seq<Node>, cols: Columns)
    ensures var list := SelectList(tCols, tables, cols);
      && |list| == Offset(tCols, tables, cols, |tables|)
      && (tCols <= |list| && list[..tCols] == Block(0, tCols))
      && forall i: nat :: i < |tables| && tables[i].sel ==> BlockInPlace(list, tCols, tables, cols, i)
  {
    var list := SelectList(tCols, tables, cols);
    if tables != [] {
      var n := |tables| - 1;
      var front := SelectList(tCols, tables[..n], cols);
      SelectListBlocks(tCols, tables[..n], cols);
      OffsetPrefix(tCols, tables, cols, n, n);
      var more := list[|front|..];
      assert list == front + more;
      assert list[..tCols] == front[..tCols];
      forall i: nat | i < |tables| && tables[i].sel
        ensures BlockInPlace(list, tCols, tables, cols, i)
      {
        if i < n {
          assert tables[..n][i].sel;
          BlockStays(front, more, tCols, tables, cols, n, i);
        }
      }
    }
  }

  // ---- reading one row ----

  /** The key of the row caches: the names of a path without a separator. */
  function Concat(names: seq<string>): string { if names == [] then [] else names[0] + Concat(names[1..]) }

  lemma {:induction false} ConcatSnoc(names: seq<string>, n: string)
    ensures Concat(names + [n]) == Concat(names) + n
  {
    if names == [] {
      assert names + [n] == [n];
      assert [n][1..] == [];
    } else {
      assert (names + [n])[1..] == names[1..] + [n];
      ConcatSnoc(names[1..], n);
    }
  }

  /** `present(path)`: the object that owns the last field of the path has it set. */
  type Present = seq<string> -> bool

  ghost predicate AllPresent(present: Present, names: seq<string>) {
    names == [] || (AllPresent(present, names[..|names| - 1]) && present(names))
  }

  /** Columns stored into the object at a path. */
  datatype Write<V> = Write(names: seq<string>, block: seq<V>)

  /** Every selected table whose object exists gets its own block, in list order. */
  ghost function Expected<V>(tCols: nat, tables: seq<Node>, cols: Columns, row: seq<V>, present: Present, i: nat): seq<Write<V>>
    requires i <= |tables| && Offset(tCols, tables, cols, i) <= |row|
  {
    if i == 0 then []
    else
      OffsetMonotone(tCols, tables, cols, i - 1, i);
      var node, a := tables[i - 1], Offset(tCols, tables, cols, i - 1);
      Expected(tCols, tables, cols, row, present, i - 1) +
      if node.sel && AllPresent(present, node.names) then [Write(node.names, row[a..a + cols(node.mi)])] else []
  }

  lemma NextTable<V>(tCols: nat, tables: seq<Node>, cols: Columns, row: seq<V>, present: Present, i: nat)
    requires i < |tables| && Offset(tCols, tables, cols, i + 1) <= |row|
    ensures var node, a := tables[i], Offset(tCols, tables, cols, i);
      && Offset(tCols, tables, cols, i + 1) == (if node.sel then a + cols(node.mi) else a)
      && Expected(tCols, tables, cols, row, present, i + 1) ==
         Expected(tCols, tables, cols, row, present, i) +
         (if node.sel && AllPresent(present, node.names) then [Write(node.names, row[a..a + cols(node.mi)])] else [])
  {
  }

  /** Paths of different selected tables stay different without their separators. */
  ghost predicate KeysDiffer(tables: seq<Node>) {
    forall i, j :: 0 <= i < j < |tables| && tables[i].sel && tables[j].sel ==> Concat(tables[i].names) != Concat(tables[j].names)
  }

  /** The tables of all shorter paths are selected and come first. */
  lemma {:induction false} PrefixSelected(sch: Schema, root: Model, skipEnd: bool, p: Plan, i: nat, k: nat) returns (j: nat)
    requires ValidPlan(sch, root, skipEnd, p) && i < |p.tables| && p.tables[i].sel
    requires 1 <= k <= |p.tables[i].names|
    ensures j <= i && p.tables[j].sel && p.tables[j].names == p.tables[i].names[..k]
    ensures k < |p.tables[i].names| ==> j < i
    decreases i
  {
    assert ValidNode(sch, root, skipEnd, p, i);
    var names := p.tables[i].names;
    if k == |names| {
      j := i;
      assert names[..k] == names;
    } else {
      var up := p.tables[i].jtl.value;
      assert names[..|names| - 1][..k] == names[..k];
      j := PrefixSelected(sch, root, skipEnd, p, up, k);
    }
  }

  /** What the row caches know: exactly the selected tables read so far. */
  ghost predicate Caches(tables: seq<Node>, i: nat, present: Present, cache: RowCache)
    requires i <= |tables|
  {
    && cache.valid.Keys == cache.model.Keys
    && (forall j :: 0 <= j < i && tables[j].sel ==> Remembered(tables[j], present, cache))
    && (forall key <- cache.model :: Backed(tables, i, key))
  }

  ghost predicate Remembered(node: Node, present: Present, cache: RowCache) {
    var key := Concat(node.names);
    cache.Knows(key) && cache.model[key] == node.mi && cache.valid[key] == AllPresent(present, node.names)
  }

  ghost predicate Backed(tables: seq<Node>, i: nat, key: string)
    requires i <= |tables|
  {
    exists j :: 0 <= j < i && tables[j].sel && key == Concat(tables[j].names)
  }

  lemma BackedLater(tables: seq<Node>, i: nat, key: string)
    requires i < |tables| && (Backed(tables, i, key) || (tables[i].sel && key == Concat(tables[i].names)))
    ensures Backed(tables, i + 1, key)
  {
    if Backed(tables, i, key) {
      var j :| 0 <= j < i && tables[j].sel && key == Concat(tables[j].names);
      assert j < i + 1;
    }
  }

  lemma LastStep(sch: Schema, root: Model, skipEnd: bool, p: Plan, i: nat)
    requires sch.Valid() && ValidPlan(sch, root, skipEnd, p) && i < |p.tables| && p.tables[i].sel
    ensures var names := p.tables[i].names;
      && names != [] && ModelAfter(sch, root, names[..|names| - 1]).Some?
      && var m := ModelAfter(sch, root, names[..|names| - 1]).value;
         sch.GetByAny(m, names[|names| - 1]).Some? && sch.GetByAny(m, names[|names| - 1]).value.target == p.tables[i].mi
  {
    assert ValidNode(sch, root, skipEnd, p, i);
  }

  // ---- what the code does, whatever the keys ----

  /** The caches of one row: whether the object under a key exists, and its model. */
  datatype RowCache = RowCache(valid: map<string, bool>, model: map<string, Model>)
  {
    predicate Knows(key: string) { key in valid && key in model }

    function Learn(key: string, v: bool, m: Model): RowCache { RowCache(valid[key := v], model[key := m]) }
  }

  datatype Walked<V> = Walked(mmi: Model, cache: RowCache, writes: seq<Write<V>>)

  /** The walk along a path from component `k` on: a known key is looked up, an unknown one is
      read from the front of the remaining columns when its object exists.  None is a panic. */
  function Walk<V>(sch: Schema, cols: Columns, present: Present, names: seq<string>, k: nat, mmi: Model, valid: bool,
                   cache: RowCache, writes: seq<Write<V>>, rest: seq<V>): Option<Walked<V>>
    requires k <= |names|
    decreases |names| - k
  {
    if k == |names| then Some(Walked(mmi, cache, writes))
    else
      var path := names[..k + 1];
      var key := Concat(path);
      if cache.Knows(key) then Walk(sch, cols, present, names, k + 1, cache.model[key], cache.valid[key], cache, writes, rest)
      else
        match sch.GetByAny(mmi, names[k])
        case None => None
        case Some(fi) =>
          var field := valid && present(path);
          if field && cols(fi.target) > |rest| then None
          else
            // `last` moves on to the field only when that exists
            Walk(sch, cols, present, names, k + 1, fi.target, valid, cache.Learn(key, field, fi.target),
                 if field then writes + [Write(path, rest[..cols(fi.target)])] else writes, rest)
  }

  /** The loop over the tables from table `i` on; each selected one takes as many columns as the
      model its walk ended at has.  None is a panic. */
  function Decode<V>(sch: Schema, root: Model, tables: seq<Node>, cols: Columns, present: Present, i: nat,
                     cache: RowCache, writes: seq<Write<V>>, rest: seq<V>): Option<(seq<Write<V>>, seq<V>)>
    requires i <= |tables|
    decreases |tables| - i
  {
    if i == |tables| then Some((writes, rest))
    else if !tables[i].sel then Decode(sch, root, tables, cols, present, i + 1, cache, writes, rest)
    else
      match Walk(sch, cols, present, tables[i].names, 0, root, true, cache, writes, rest)
      case None => None
      case Some(w) =>
        if cols(w.mmi) > |rest| then None
        else Decode(sch, root, tables, cols, present, i + 1, w.cache, w.writes, rest[cols(w.mmi)..])
  }

  const NOTHING := RowCache(map[], map[])

  method WalkRow<V>(sch: Schema, cols: Columns, present: Present, names: seq<string>, root: Model,
                    cache: RowCache, writes: seq<Write<V>>, rest: seq<V>)
    returns (r: Option<Walked<V>>)
    ensures r == Walk(sch, cols, present, names, 0, root, true, cache, writes, rest)
  {
    var key, mmi, valid := "", root, true;
    var cache', writes' := cache, writes;
    for k := 0 to |names|
      invariant key == Concat(names[..k])
      invariant Walk(sch, cols, present, names, k, mmi, valid, cache', writes', rest)
             == Walk(sch, cols, present, names, 0, root, true, cache, writes, rest)
    {
      ConcatPrefix(names, k);
      key := key + names[k];
      if cache'.Knows(key) {
        mmi, valid := cache'.model[key], cache'.valid[key];
      } else {
        var fi := sch.GetByAny(mmi, names[k]);
        if fi.None? {
          return None;
        }
        mmi := fi.value.target;
        var field := valid && present(names[..k + 1]);
        if field {
          if cols(mmi) > |rest| {
            return None;
          }
          writes' := writes' + [Write(names[..k + 1], rest[..cols(mmi)])];
        }
        cache' := cache'.Learn(key, field, mmi);
      }
    }
    return Some(Walked(mmi, cache', writes'));
  }

  /** One row of `ReadBatch`: T0 takes the first columns, then the tables take theirs. */
  method DecodeRow<V>(sch: Schema, root: Model, tables: seq<Node>, cols: Columns, tCols: nat, row: seq<V>, present: Present)
    returns (own: seq<V>, r: Option<(seq<Write<V>>, seq<V>)>)
    requires tCols <= |row|
    ensures own == row[..tCols]
    ensures r == Decode(sch, root, tables, cols, present, 0, NOTHING, [], row[tCols..])
  {
    var cache, writes, rest := NOTHING, [], row[tCols..];
    own := row[..tCols];
    for i := 0 to |tables|
      invariant Decode(sch, root, tables, cols, present, i, cache, writes, rest)
             == Decode(sch, root, tables, cols, present, 0, NOTHING, [], row[tCols..])
    {
      if tables[i].sel {
        var w := WalkRow(sch, cols, present, tables[i].names, root, cache, writes, rest);
        if w.None? || cols(w.value.mmi) > |rest| {
          return own, None;
        }
        cache, writes, rest := w.value.cache, w.value.writes, rest[cols(w.value.mmi)..];
      }
    }
    return own, Some((writes, rest));
  }

  // ---- with different keys, every table gets its own block ----

  lemma ConcatPrefix(names: seq<string>, k: nat)
    requires k < |names|
    ensures Concat(names[..k + 1]) == Concat(names[..k]) + names[k]
  {
    assert names[..k + 1] == names[..k] + [names[k]];
    ConcatSnoc(names[..k], names[k]);
  }

  lemma PrefixCached(sch: Schema, root: Model, skipEnd: bool, p: Plan, i: nat, present: Present, cache: RowCache, k: nat)
    requires ValidPlan(sch, root, skipEnd, p) && i < |p.tables| && p.tables[i].sel
    requires Caches(p.tables, i, present, cache) && 1 <= k < |p.tables[i].names|
    ensures var prefix := p.tables[i].names[..k];
      && cache.Knows(Concat(prefix)) && cache.valid[Concat(prefix)] == AllPresent(present, prefix)
      && Some(cache.model[Concat(prefix)]) == ModelAfter(sch, root, prefix)
  {
    var j := PrefixSelected(sch, root, skipEnd, p, i, k);
    assert ValidNode(sch, root, skipEnd, p, j);
    assert Remembered(p.tables[j], present, cache);
  }

  lemma NotCached(tables: seq<Node>, i: nat, present: Present, cache: RowCache)
    requires i < |tables| && tables[i].sel && KeysDiffer(tables) && Caches(tables, i, present, cache)
    ensures !cache.Knows(Concat(tables[i].names))
  {
    var key := Concat(tables[i].names);
    assert !Backed(tables, i, key);
  }

  lemma StillRemembered(tables: seq<Node>, i: nat, j: nat, present: Present, cache: RowCache)
    requires j <= i < |tables| && tables[i].sel && tables[j].sel && KeysDiffer(tables)
    requires j < i ==> Remembered(tables[j], present, cache)
    ensures Remembered(tables[j], present, cache.Learn(Concat(tables[i].names), AllPresent(present, tables[i].names), tables[i].mi))
  {
  }

  lemma StillBacked(tables: seq<Node>, i: nat, cache: RowCache, v: bool, m: Model, key: string)
    requires i < |tables| && tables[i].sel && (forall k <- cache.model :: Backed(tables, i, k))
    requires key in cache.Learn(Concat(tables[i].names), v, m).model
    ensures Backed(tables, i + 1, key)
  {
    BackedLater(tables, i, key);
  }

  lemma LearnKeys(cache: RowCache, key: string, v: bool, m: Model)
    requires cache.valid.Keys == cache.model.Keys
    ensures cache.Learn(key, v, m).valid.Keys == cache.Learn(key, v, m).model.Keys
  {
    assert cache.Learn(key, v, m).valid.Keys == cache.valid.Keys + {key};
    assert cache.Learn(key, v, m).model.Keys == cache.model.Keys + {key};
  }

  lemma CachesGrow(tables: seq<Node>, i: nat, present: Present, cache: RowCache)
    requires i < |tables| && tables[i].sel && KeysDiffer(tables) && Caches(tables, i, present, cache)
    ensures Caches(tables, i + 1, present, cache.Learn(Concat(tables[i].names), AllPresent(present, tables[i].names), tables[i].mi))
  {
    var there := AllPresent(present, tables[i].names);
    var c := cache.Learn(Concat(tables[i].names), there, tables[i].mi);
    LearnKeys(cache, Concat(tables[i].names), there, tables[i].mi);
    forall j | 0 <= j < i + 1 && tables[j].sel
      ensures Remembered(tables[j], present, c)
    {
      StillRemembered(tables, i, j, present, cache);
    }
    forall key | key in c.model
      ensures Backed(tables, i + 1, key)
    {
      StillBacked(tables, i, cache, there, tables[i].mi, key);
    }
  }

  lemma CachesSkip(tables: seq<Node>, i: nat, present: Present, cache: RowCache)
    requires i < |tables| && !tables[i].sel && Caches(tables, i, present, cache)
    ensures Caches(tables, i + 1, present, cache)
  {
    forall key | key in cache.model
      ensures Backed(tables, i + 1, key)
    {
      BackedLater(tables, i, key);
    }
  }

  /** What the walk along a selected table's path comes to. */
  ghost function TableRead<V>(node: Node, cols: Columns, present: Present, cache: RowCache, writes: seq<Write<V>>, rest: seq<V>): Walked<V>
    requires cols(node.mi) <= |rest|
  {
    var there := AllPresent(present, node.names);
    Walked(node.mi, cache.Learn(Concat(node.names), there, node.mi),
           if there then writes + [Write(node.names, rest[..cols(node.mi)])] else writes)
  }

  /** The last component is read from the columns. */
  lemma WalkLast<V>(sch: Schema, root: Model, skipEnd: bool, p: Plan, i: nat, cols: Columns, present: Present,
                    cache: RowCache, writes: seq<Write<V>>, rest: seq<V>, mmi: Model, valid: bool)
    requires sch.Valid() && ValidPlan(sch, root, skipEnd, p) && i < |p.tables| && p.tables[i].sel
    requires KeysDiffer(p.tables) && Caches(p.tables, i, present, cache) && cols(p.tables[i].mi) <= |rest|
    requires p.tables[i].names != []
    requires ModelAfter(sch, root, p.tables[i].names[..|p.tables[i].names| - 1]) == Some(mmi)
    requires valid == AllPresent(present, p.tables[i].names[..|p.tables[i].names| - 1])
    ensures Walk(sch, cols, present, p.tables[i].names, |p.tables[i].names| - 1, mmi, valid, cache, writes, rest)
         == Some(TableRead(p.tables[i], cols, present, cache, writes, rest))
  {
    LastStep(sch, root, skipEnd, p, i);
    NotCached(p.tables, i, present, cache);
    WalkMiss(sch, p.tables[i], cols, present, cache, writes, rest, mmi, valid);
  }

  lemma WalkMiss<V>(sch: Schema, node: Node, cols: Columns, present: Present, cache: RowCache, writes: seq<Write<V>>, rest: seq<V>,
                    mmi: Model, valid: bool)
    requires node.names != [] && cols(node.mi) <= |rest| && !cache.Knows(Concat(node.names))
    requires sch.GetByAny(mmi, node.names[|node.names| - 1]).Some?
    requires sch.GetByAny(mmi, node.names[|node.names| - 1]).value.target == node.mi
    requires valid == AllPresent(present, node.names[..|node.names| - 1])
    ensures Walk(sch, cols, present, node.names, |node.names| - 1, mmi, valid, cache, writes, rest)
         == Some(TableRead(node, cols, present, cache, writes, rest))
  {
    assert node.names[..|node.names| - 1 + 1] == node.names;
  }

  /** The components before it are all known. */
  lemma {:induction false} WalkSelected<V>(sch: Schema, root: Model, skipEnd: bool, p: Plan, i: nat, cols: Columns, present: Present,
                                           cache: RowCache, writes: seq<Write<V>>, rest: seq<V>, k: nat, mmi: Model, valid: bool)
    requires sch.Valid() && ValidPlan(sch, root, skipEnd, p) && i < |p.tables| && p.tables[i].sel
    requires KeysDiffer(p.tables) && Caches(p.tables, i, present, cache) && cols(p.tables[i].mi) <= |rest|
    requires k < |p.tables[i].names|
    requires ModelAfter(sch, root, p.tables[i].names[..k]) == Some(mmi) && valid == AllPresent(present, p.tables[i].names[..k])
    ensures Walk(sch, cols, present, p.tables[i].names, k, mmi, valid, cache, writes, rest)
         == Some(TableRead(p.tables[i], cols, present, cache, writes, rest))
    decreases |p.tables[i].names| - k
  {
    var names := p.tables[i].names;
    if k == |names| - 1 {
      WalkLast(sch, root, skipEnd, p, i, cols, present, cache, writes, rest, mmi, valid);
    } else {
      PrefixCached(sch, root, skipEnd, p, i, present, cache, k + 1);
      var key := Concat(names[..k + 1]);
      WalkSelected(sch, root, skipEnd, p, i, cols, present, cache, writes, rest, k + 1, cache.model[key], cache.valid[key]);
    }
  }

  /** How far the loop over the tables has come. */
  ghost predicate ReadUpTo<V>(tCols: nat, tables: seq<Node>, cols: Columns, row: seq<V>, present: Present, i: nat,
                              writes: seq<Write<V>>, rest: seq<V>)
    requires i <= |tables|
  {
    && Offset(tCols, tables, cols, i) <= |row| && rest == row[Offset(tCols, tables, cols, i)..]
    && writes == Expected(tCols, tables, cols, row, present, i)
  }

  lemma ReadOne<V>(tCols: nat, tables: seq<Node>, cols: Columns, row: seq<V>, present: Present, i: nat,
                   writes: seq<Write<V>>, rest: seq<V>)
    requires i < |tables| && Offset(tCols, tables, cols, i + 1) <= |row|
    requires ReadUpTo(tCols, tables, cols, row, present, i, writes, rest)
    ensures var node, n := tables[i], cols(tables[i].mi);
      if node.sel then
        && n <= |rest|
        && ReadUpTo(tCols, tables, cols, row, present, i + 1,
                    if AllPresent(present, node.names) then writes + [Write(node.names, rest[..n])] else writes, rest[n..])
      else ReadUpTo(tCols, tables, cols, row, present, i + 1, writes, rest)
  {
    NextTable(tCols, tables, cols, row, present, i);
    if tables[i].sel {
      CutBlock(row, Offset(tCols, tables, cols, i), cols(tables[i].mi));
    }
  }

  lemma CutBlock<V>(row: seq<V>, a: nat, n: nat)
    requires a + n <= |row|
    ensures row[a..][..n] == row[a..a + n] && row[a..][n..] == row[a + n..]
  {
  }

  lemma {:induction false} DecodeFrom<V>(sch: Schema, root: Model, skipEnd: bool, p: Plan, cols: Columns, tCols: nat, row: seq<V>,
                                         present: Present, i: nat, cache: RowCache, writes: seq<Write<V>>, rest: seq<V>)
    requires sch.Valid() && ValidPlan(sch, root, skipEnd, p) && KeysDiffer(p.tables)
    requires |row| == Offset(tCols, p.tables, cols, |p.tables|) && i <= |p.tables|
    requires ReadUpTo(tCols, p.tables, cols, row, present, i, writes, rest) && Caches(p.tables, i, present, cache)
    ensures Decode(sch, root, p.tables, cols, present, i, cache, writes, rest)
         == Some((Expected(tCols, p.tables, cols, row, present, |p.tables|), []))
    decreases |p.tables| - i
  {
    if i < |p.tables| {
      OffsetMonotone(tCols, p.tables, cols, i + 1, |p.tables|);
      ReadOne(tCols, p.tables, cols, row, present, i, writes, rest);
      if p.tables[i].sel {
        var w := DecodeSelected(sch, root, skipEnd, p, cols, present, i, cache, writes, rest);
        DecodeFrom(sch, root, skipEnd, p, cols, tCols, row, present, i + 1, w.cache, w.writes, rest[cols(p.tables[i].mi)..]);
      } else {
        CachesSkip(p.tables, i, present, cache);
        DecodeFrom(sch, root, skipEnd, p, cols, tCols, row, present, i + 1, cache, writes, rest);
      }
    }
  }

  /** One selected table of the loop. */
  lemma DecodeSelected<V>(sch: Schema, root: Model, skipEnd: bool, p: Plan, cols: Columns, present: Present, i: nat,
                          cache: RowCache, writes: seq<Write<V>>, rest: seq<V>) returns (w: Walked<V>)
    requires sch.Valid() && ValidPlan(sch, root, skipEnd, p) && KeysDiffer(p.tables) && i < |p.tables| && p.tables[i].sel
    requires Caches(p.tables, i, present, cache) && cols(p.tables[i].mi) <= |rest|
    ensures w == TableRead(p.tables[i], cols, present, cache, writes, rest) && Caches(p.tables, i + 1, present, w.cache)
    ensures Decode(sch, root, p.tables, cols, present, i, cache, writes, rest)
         == Decode(sch, root, p.tables, cols, present, i + 1, w.cache, w.writes, rest[cols(p.tables[i].mi)..])
  {
    var node := p.tables[i];
    LastStep(sch, root, skipEnd, p, i);
    assert node.names[..0] == [];
    WalkSelected(sch, root, skipEnd, p, i, cols, present, cache, writes, rest, 0, root, true);
    CachesGrow(p.tables, i, present, cache);
    w := TableRead(node, cols, present, cache, writes, rest);
  }

  /** The row was read as the SELECT list laid it out: every selected table whose object exists
      got exactly its own block, a null foreign key skipped its block, no column is left. */
  ghost predicate ReadRight<V>(sch: Schema, root: Model, tables: seq<Node>, cols: Columns, tCols: nat, row: seq<V>, present: Present)
    requires |row| == Offset(tCols, tables, cols, |tables|) && tCols <= |row|
  {
    Decode(sch, root, tables, cols, present, 0, NOTHING, [], row[tCols..])
    == Some((Expected(tCols, tables, cols, row, present, |tables|), []))
  }

  lemma DifferentKeysReadRight<V>(sch: Schema, root: Model, skipEnd: bool, p: Plan, cols: Columns, tCols: nat, row: seq<V>, present: Present)
    requires sch.Valid() && ValidPlan(sch, root, skipEnd, p) && KeysDiffer(p.tables)
    requires |row| == Offset(tCols, p.tables, cols, |p.tables|)
    ensures tCols <= |row| && ReadRight(sch, root, p.tables, cols, tCols, row, present)
  {
    OffsetMonotone(tCols, p.tables, cols, 0, |p.tables|);
    DecodeFrom(sch, root, skipEnd, p, cols, tCols, row, present, 0, NOTHING, [], row[tCols..]);
  }

  // ---- with a shared key, a table is lost ----

  /** The keys of the selected tables before `i` are known. */
  ghost predicate Seen(tables: seq<Node>, i: nat, cache: RowCache)
    requires i <= |tables|
  {
    forall j :: 0 <= j < i && tables[j].sel ==> cache.Knows(Concat(tables[j].names))
  }

  ghost predicate Grows(c: RowCache, c': RowCache) { forall key :: c.Knows(key) ==> c'.Knows(key) }

  /** A walk whose shorter paths are all known adds at most one write, and none when the whole
      path is known too. */
  lemma {:induction false} WalkAdds<V>(sch: Schema, cols: Columns, present: Present, names: seq<string>, k: nat, mmi: Model, valid: bool,
                                       cache: RowCache, writes: seq<Write<V>>, rest: seq<V>)
    requires k < |names| && forall n :: 0 < n < |names| ==> cache.Knows(Concat(names[..n]))
    ensures var w := Walk(sch, cols, present, names, k, mmi, valid, cache, writes, rest);
      w.Some? ==>
        && Grows(cache, w.value.cache) && w.value.cache.Knows(Concat(names))
        && |w.value.writes| <= |writes| + if cache.Knows(Concat(names)) then 0 else 1
    decreases |names| - k
  {
    assert names[..|names|] == names;
    if k < |names| - 1 {
      var key := Concat(names[..k + 1]);
      assert cache.Knows(key);
      WalkAdds(sch, cols, present, names, k + 1, cache.model[key], cache.valid[key], cache, writes, rest);
    }
  }

  lemma PrefixesSeen(sch: Schema, root: Model, skipEnd: bool, p: Plan, i: nat, cache: RowCache)
    requires ValidPlan(sch, root, skipEnd, p) && i < |p.tables| && p.tables[i].sel && Seen(p.tables, i, cache)
    ensures p.tables[i].names != []
    ensures forall n :: 0 < n < |p.tables[i].names| ==> cache.Knows(Concat(p.tables[i].names[..n]))
  {
    assert ValidNode(sch, root, skipEnd, p, i);
    forall n | 0 < n < |p.tables[i].names|
      ensures cache.Knows(Concat(p.tables[i].names[..n]))
    {
      var j := PrefixSelected(sch, root, skipEnd, p, i, n);
    }
  }

  ghost function SelectedFrom(tables: seq<Node>, i: nat): nat
    requires i <= |tables|
    decreases |tables| - i
  {
    if i == |tables| then 0 else (if tables[i].sel then 1 else 0) + SelectedFrom(tables, i + 1)
  }

  /** Table `j` shares its key with a selected table before it. */
  ghost predicate Repeats(tables: seq<Node>, j: nat) {
    && j < |tables| && tables[j].sel
    && exists i :: 0 <= i < j && tables[i].sel && Concat(tables[i].names) == Concat(tables[j].names)
  }

  lemma TableAdds<V>(sch: Schema, root: Model, skipEnd: bool, p: Plan, cols: Columns, present: Present,
                     i: nat, j: nat, cache: RowCache, writes: seq<Write<V>>, rest: seq<V>) returns (w: Option<Walked<V>>)
    requires ValidPlan(sch, root, skipEnd, p) && i < |p.tables| && p.tables[i].sel && Seen(p.tables, i, cache) && Repeats(p.tables, j)
    ensures w == Walk(sch, cols, present, p.tables[i].names, 0, root, true, cache, writes, rest)
    ensures w.Some? ==> Seen(p.tables, i + 1, w.value.cache) && |w.value.writes| <= |writes| + if i == j then 0 else 1
  {
    var names := p.tables[i].names;
    PrefixesSeen(sch, root, skipEnd, p, i, cache);
    WalkAdds(sch, cols, present, names, 0, root, true, cache, writes, rest);
    w := Walk(sch, cols, present, names, 0, root, true, cache, writes, rest);
  }

  /** How many writes are still possible from table `i` on, with table `j` repeating a key. */
  ghost function Room(tables: seq<Node>, i: nat, j: nat): int
    requires i <= |tables|
  {
    SelectedFrom(tables, i) - if i <= j then 1 else 0
  }

  lemma RoomStep(tables: seq<Node>, i: nat, j: nat)
    requires i < |tables| && j < |tables| && tables[j].sel
    ensures Room(tables, i, j) == Room(tables, i + 1, j) + if tables[i].sel && i != j then 1 else 0
  {
  }

  /** The loop writes at most once per selected table, and not for a table that repeats a key. */
  lemma {:induction false} RepeatsAreLost<V>(sch: Schema, root: Model, skipEnd: bool, p: Plan, cols: Columns, present: Present,
                                             i: nat, j: nat, cache: RowCache, writes: seq<Write<V>>, rest: seq<V>)
    requires ValidPlan(sch, root, skipEnd, p) && i <= |p.tables| && Seen(p.tables, i, cache) && Repeats(p.tables, j)
    ensures var d := Decode(sch, root, p.tables, cols, present, i, cache, writes, rest);
            d.Some? ==> |d.value.0| <= |writes| + Room(p.tables, i, j)
    decreases |p.tables| - i
  {
    if i < |p.tables| {
      RoomStep(p.tables, i, j);
      if !p.tables[i].sel {
        RepeatsAreLost(sch, root, skipEnd, p, cols, present, i + 1, j, cache, writes, rest);
      } else {
        var w := TableAdds(sch, root, skipEnd, p, cols, present, i, j, cache, writes, rest);
        if w.Some? && cols(w.value.mmi) <= |rest| {
          var rest' := rest[cols(w.value.mmi)..];
          RepeatsAreLost(sch, root, skipEnd, p, cols, present, i + 1, j, w.value.cache, w.value.writes, rest');
          assert Decode(sch, root, p.tables, cols, present, i, cache, writes, rest)
              == Decode(sch, root, p.tables, cols, present, i + 1, w.value.cache, w.value.writes, rest');
        } else {
          assert Decode(sch, root, p.tables, cols, present, i, cache, writes, rest).None?;
        }
      }
    }
  }

  lemma {:induction false} ExpectedCount<V>(tCols: nat, tables: seq<Node>, cols: Columns, row: seq<V>, present: Present, i: nat)
    requires i <= |tables| && Offset(tCols, tables, cols, i) <= |row|
    requires forall names :: AllPresent(present, names)
    ensures |Expected(tCols, tables, cols, row, present, i)| + SelectedFrom(tables, i) == SelectedFrom(tables, 0)
  {
    if i > 0 {
      OffsetMonotone(tCols, tables, cols, i - 1, i);
      ExpectedCount(tCols, tables, cols, row, present, i - 1);
    }
  }

  lemma {:induction false} EverythingPresent(names: seq<string>)
    ensures AllPresent(_ => true, names)
  {
    if names != [] {
      EverythingPresent(names[..|names| - 1]);
    }
  }

  /** When two selected tables share a key and all objects exist, one of them is not written. */
  lemma SharedKeyReadsWrong<V>(sch: Schema, root: Model, skipEnd: bool, p: Plan, cols: Columns, tCols: nat, row: seq<V>)
    requires ValidPlan(sch, root, skipEnd, p) && !KeysDiffer(p.tables)
    requires |row| == Offset(tCols, p.tables, cols, |p.tables|) && tCols <= |row|
    ensures !ReadRight(sch, root, p.tables, cols, tCols, row, _ => true)
  {
    var present: Present := _ => true;
    var i, j :| 0 <= i < j < |p.tables| && p.tables[i].sel && p.tables[j].sel && Concat(p.tables[i].names) == Concat(p.tables[j].names);
    RepeatsAreLost(sch, root, skipEnd, p, cols, present, 0, j, NOTHING, [], row[tCols..]);
    forall names
      ensures AllPresent(present, names)
    {
      EverythingPresent(names);
    }
    ExpectedCount(tCols, p.tables, cols, row, present, |p.tables|);
  }

  /** A plan's rows are read right whatever objects exist exactly when no two of its selected
      paths become equal without their separators. */
  lemma ReadsRightIff<V>(sch: Schema, root: Model, skipEnd: bool, p: Plan, cols: Columns, tCols: nat, row: seq<V>)
    requires sch.Valid() && ValidPlan(sch, root, skipEnd, p) && |row| == Offset(tCols, p.tables, cols, |p.tables|)
    ensures tCols <= |row|
    ensures (forall present: Present :: ReadRight(sch, root, p.tables, cols, tCols, row, present)) <==> KeysDiffer(p.tables)
  {
    OffsetMonotone(tCols, p.tables, cols, 0, |p.tables|);
    if KeysDiffer(p.tables) {
      forall present: Present
        ensures ReadRight(sch, root, p.tables, cols, tCols, row, present)
      {
        DifferentKeysReadRight(sch, root, skipEnd, p, cols, tCols, row, present);
      }
    } else {
      SharedKeyReadsWrong(sch, root, skipEnd, p, cols, tCols, row);
    }
  }

  /** Such plans are made: the related paths "ab"/"c" and "a"/"bc". */
  method PlanWithSharedKey() returns (t: DbTables)
    ensures t.sch.Valid() && ValidPlan(t.sch, t.root, t.skipEnd, t.P()) && !KeysDiffer(t.tables)
  {
    ForkIsSound();
    ForkFields();
    t := new DbTables(FORK, "t", false);
    var ok := t.WalkRelated(["ab", "c"]);
    PathOfTwo(FORK, "t", "m", "o", "ab", "c");
    ghost var i :| 0 <= i < |t.tables| && t.tables[i].sel && t.tables[i].names == ["ab", "c"];
    ok := t.WalkRelated(["a", "bc"]);
    PathOfTwo(FORK, "t", "n", "o", "a", "bc");
    ghost var j :| 0 <= j < |t.tables| && t.tables[j].sel && t.tables[j].names == ["a", "bc"];
    SharesKey(t.tables, i, j);
  }

  const FORK := Schema(
    map[("t", "ab") := Forward1("ab", "m"), ("m", "c") := Forward1("c", "o"),
        ("t", "a") := Forward1("a", "n"), ("n", "bc") := Forward1("bc", "o")],
    map[], {})

  lemma ForkIsSound()
    ensures FORK.Valid() && Unambiguous(FORK, "t")
  {
    ForkFields();
    CleanIsUnambiguous(FORK, "t");
  }

  lemma ForkFields()
    ensures forall k <- FORK.lookup :: Clean(FORK.lookup[k].name)
    ensures FORK.GetByAny("t", "ab") == Some(Forward1("ab", "m")) && FORK.GetByAny("m", "c") == Some(Forward1("c", "o"))
    ensures FORK.GetByAny("t", "a") == Some(Forward1("a", "n")) && FORK.GetByAny("n", "bc") == Some(Forward1("bc", "o"))
  {
    assert Clean("ab") && Clean("c") && Clean("a") && Clean("bc");
  }

  lemma PathOfTwo(sch: Schema, root: Model, mid: Model, end: Model, a: string, b: string)
    requires sch.GetByAny(root, a) == Some(Forward1(a, mid)) && sch.GetByAny(mid, b) == Some(Forward1(b, end))
    ensures RelatedOk(sch, root, [a, b]) && Forward(sch, root, [a, b]) && RelatedNames(sch, root, [a, b]) == [a, b]
  {
    assert [a, b][1..] == [b] && [b][1..] == [];
    assert RelatedOk(sch, end, []) && RelatedOk(sch, mid, [b]);
    assert RelatedNames(sch, mid, [b]) == [b] && Forward(sch, mid, [b]);
  }

  lemma SharesKey(tables: seq<Node>, i: nat, j: nat)
    requires i < |tables| && tables[i].sel && tables[i].names == ["ab", "c"]
    requires j < |tables| && tables[j].sel && tables[j].names == ["a", "bc"]
    ensures !KeysDiffer(tables)
  {
    assert ["ab", "c"][0] != ["a", "bc"][0];
    assert Concat(["ab", "c"]) == "ab" + ("c" + "") && Concat(["a", "bc"]) == "a" + ("bc" + "");
  }

  // ---- the SELECT list read back ----

  /** What each selected table with an object should get: the labels of its own columns. */
  ghost function OwnLabels(tables: seq<Node>, cols: Columns, present: Present, i: nat): seq<Write<Label>>
    requires i <= |tables|
  {
    if i == 0 then []
    else
      var node := tables[i - 1];
      OwnLabels(tables, cols, present, i - 1) +
      if node.sel && AllPresent(present, node.names) then [Write(node.names, Block(i, cols(node.mi)))] else []
  }

  lemma {:induction false} ExpectedIsOwn(tCols: nat, tables: seq<Node>, cols: Columns, present: Present, i: nat)
    requires i <= |tables| && Offset(tCols, tables, cols, i) <= |SelectList(tCols, tables, cols)|
    ensures Expected(tCols, tables, cols, SelectList(tCols, tables, cols), present, i) == OwnLabels(tables, cols, present, i)
  {
    if i > 0 {
      OffsetMonotone(tCols, tables, cols, i - 1, i);
      ExpectedIsOwn(tCols, tables, cols, present, i - 1);
      SelectListBlocks(tCols, tables, cols);
      assert tables[i - 1].sel ==> BlockInPlace(SelectList(tCols, tables, cols), tCols, tables, cols, i - 1);
    }
  }

  /** Reading back a row of column labels laid out by the SELECT list gives T0 and each selected
      table exactly the labels of their own columns. */
  lemma SelectListReadsBack(sch: Schema, root: Model, skipEnd: bool, p: Plan, cols: Columns, tCols: nat, present: Present)
    requires sch.Valid() && ValidPlan(sch, root, skipEnd, p) && KeysDiffer(p.tables)
    ensures var row := SelectList(tCols, p.tables, cols);
      && tCols <= |row| && row[..tCols] == Block(0, tCols)
      && Decode(sch, root, p.tables, cols, present, 0, NOTHING, [], row[tCols..]) == Some((OwnLabels(p.tables, cols, present, |p.tables|), []))
  {
    var row := SelectList(tCols, p.tables, cols);
    SelectListBlocks(tCols, p.tables, cols);
    DifferentKeysReadRight(sch, root, skipEnd, p, cols, tCols, row, present);
    ExpectedIsOwn(tCols, p.tables, cols, present, |p.tables|);
  }
}
