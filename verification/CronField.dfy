module CronField {
  import opened Word64
  import opened Text
  import opened Arithmetic

  /** Go's `uint` on a 64-bit machine; every operation on it is checked for overflow. */
  newtype uint = x: int | 0 <= x < 0x1_0000_0000_0000_0000

  /** `k` is one of `min, min + step, min + 2*step, ...`. */
  predicate OnGrid(min: int, step: int, k: int)
    requires step >= 1
  {
    (k - min) % step == 0
  }

  /** The values a range `min-max/step` stands for. */
  ghost function Progression(min: nat, max: nat, step: int): set<nat>
    requires step >= 1
  {
    set k: nat | k <= max && min <= k && OnGrid(min, step, k)
  }

  lemma GridStep(min: int, step: int, i: int)
    requires step >= 1 && OnGrid(min, step, i)
    ensures OnGrid(min, step, i + step)
    ensures forall k :: i < k < i + step ==> !OnGrid(min, step, k)
  {
    var q := (i - min) / step;
    assert i + step - min == (q + 1) * step;
    MultipleHasNoRemainder(q + 1, step);
    forall k | i < k < i + step
      ensures !OnGrid(min, step, k)
    {
      assert k - min == q * step + (k - i);
      RemainderOf(q, step, k - i);
    }
  }

  /** Acceptable values of a field, with the names some fields allow. */
  datatype Bounds = Bounds(min: nat, max: nat, names: map<string, nat>)
  {
    ghost predicate Valid() { min <= max < 63 }
  }

  /** What one comma-separated part of a field stands for. */
  datatype Range = Range(start: nat, end: nat, step: nat, star: bool)
  {
    ghost predicate In(r: Bounds) { r.min <= start <= end <= r.max }

    ghost function Values(): set<nat>
      requires step >= 1
    {
      Progression(start, end, step) + if star then {63} else {}
    }
  }

  /** `mustParseInt`; None is the panic. */
  function MustParseInt(expr: string): (n: Option<nat>)
    ensures n.Some? ==> n.value < 0x8000_0000_0000_0000
  {
    match Atoi(expr)
    case None => None
    case Some(n) => if n < 0 then None else Some(n)
  }

  /** `parseIntOrName`; None is the panic. */
  function ParseIntOrName(expr: string, names: map<string, nat>): Option<nat> {
    if Lower(expr) in names then Some(names[Lower(expr)]) else MustParseInt(expr)
  }

  /** The parsing half of `getRange`; None is any of its panics. */
  function ParseRange(expr: string, r: Bounds): (range: Option<Range>)
    ensures range.Some? ==> range.value.In(r) && range.value.step < 0x8000_0000_0000_0000
  {
    var rangeAndStep := Split(expr, '/');
    var lowAndHigh := Split(rangeAndStep[0], '-');
    var star := lowAndHigh[0] == "*" || lowAndHigh[0] == "?";
    var start := if star then Some(r.min) else ParseIntOrName(lowAndHigh[0], r.names);
    var high :=
      if star then Some(r.max)
      else if |lowAndHigh| == 1 then start
      else if |lowAndHigh| == 2 then ParseIntOrName(lowAndHigh[1], r.names)
      else None;
    var step :=
      if |rangeAndStep| == 1 then Some(1)
      else if |rangeAndStep| == 2 then MustParseInt(rangeAndStep[1])
      else None;
    var end := if |rangeAndStep| == 2 && |lowAndHigh| == 1 then Some(r.max) else high;
    if start.None? || high.None? || step.None? then None
    else if start.value < r.min || end.value > r.max || start.value > end.value then None
    else Some(Range(start.value, end.value, step.value, star))
  }

  /** Step 0 makes the loop of `getBits` run forever, so no contract below covers it. */
  ghost predicate StepsPositive(exprs: seq<string>, r: Bounds) {
    forall e <- exprs :: ParseRange(e, r).Some? ==> ParseRange(e, r).value.step >= 1
  }

  ghost predicate Accepted(exprs: seq<string>, r: Bounds) {
    forall e <- exprs :: ParseRange(e, r).Some?
  }

  /** The union of the progressions of the parts, with bit 63 for a star. */
  ghost function UnionOf(exprs: seq<string>, r: Bounds): set<nat>
    requires StepsPositive(exprs, r) && Accepted(exprs, r)
  {
    set e, k | e in exprs && k in ParseRange(e, r).value.Values() :: k
  }

  lemma UnionOfSnoc(exprs: seq<string>, e: string, r: Bounds)
    requires StepsPositive(exprs + [e], r) && Accepted(exprs + [e], r)
    ensures StepsPositive(exprs, r) && Accepted(exprs, r)
    ensures e in exprs + [e]
    ensures UnionOf(exprs + [e], r) == UnionOf(exprs, r) + ParseRange(e, r).value.Values()
  {
    assert forall x :: x in exprs + [e] <==> x in exprs || x == e;
  }

  lemma UnionOfInBounds(exprs: seq<string>, r: Bounds)
    requires StepsPositive(exprs, r) && Accepted(exprs, r)
    ensures forall k <- UnionOf(exprs, r) :: k == 63 || r.min <= k <= r.max
    ensures 63 in UnionOf(exprs, r) && r.max < 63 <==> r.max < 63 && exists e <- exprs :: ParseRange(e, r).value.star
  {
    if e :| e in exprs && ParseRange(e, r).value.star {
      assert 63 in ParseRange(e, r).value.Values();
    }
  }

  method GetBits(min: uint, max: uint, step: uint) returns (bits: Word)
    requires 1 <= step < 0x8000_0000_0000_0000
    requires max < 63
    ensures bits == Progression(min as int, max as int, step as int)
  {
    if step == 1 {
      bits := And(Not(Shl(MAX, max as int + 1)), Shl(MAX, min as int));
      assert forall k: nat :: k in bits <==> min as int <= k <= max as int;
      return;
    }
    bits := {};
    var i := min;
    while i <= max
      invariant min <= i
      invariant OnGrid(min as int, step as int, i as int)
      invariant forall k: nat :: k in bits <==> min as int <= k <= max as int && k < i as int && OnGrid(min as int, step as int, k)
      decreases if i <= max then max - i + 1 else 0
    {
      BitIsSingleton(i as int);
      GridStep(min as int, step as int, i as int);
      bits := Or(bits, Bit(i as int));
      i := i + step;
    }
  }

  method GetRange(expr: string, r: Bounds) returns (bits: Option<Word>)
    requires r.Valid() && StepsPositive([expr], r)
    ensures bits.Some? <==> ParseRange(expr, r).Some?
    ensures bits.Some? ==> bits.value == ParseRange(expr, r).value.Values()
  {
    var range := ParseRange(expr, r);
    if range.None? {
      return None;
    }
    assert expr in [expr];
    var word := GetBits(range.value.start as uint, range.value.end as uint, range.value.step as uint);
    if range.value.star {
      BitIsSingleton(63);
      word := Or(word, Bit(63));
    }
    return Some(word);
  }

  method GetField(field: string, r: Bounds) returns (bits: Option<Word>)
    requires r.Valid() && StepsPositive(Fields(field, ','), r)
    ensures bits.Some? <==> Accepted(Fields(field, ','), r)
    ensures bits.Some? ==> bits.value == UnionOf(Fields(field, ','), r)
    ensures bits.Some? ==> forall k <- bits.value :: k == 63 || r.min <= k <= r.max
    ensures bits.Some? ==>
              (63 in bits.value <==> exists e <- Fields(field, ',') :: ParseRange(e, r).value.star)
  {
    var ranges := Fields(field, ',');
    var word: Word := {};
    for i := 0 to |ranges|
      invariant Accepted(ranges[..i], r)
      invariant word == UnionOf(ranges[..i], r)
    {
      assert StepsPositive([ranges[i]], r);
      var part := GetRange(ranges[i], r);
      if part.None? {
        return None;
      }
      assert ranges[..i + 1] == ranges[..i] + [ranges[i]];
      UnionOfSnoc(ranges[..i], ranges[i], r);
      word := Or(word, part.value);
    }
    assert ranges[..|ranges|] == ranges;
    UnionOfInBounds(ranges, r);
    return Some(word);
  }

  // ---- the notation, and what it means ----

  /** One part of a field as a user writes it: `low`, `low-high`, `low/step`, `low-high/step`. */
  datatype Term = Term(low: string, high: Option<string>, step: Option<string>)
  {
    /** None of the tokens holds a character that separates tokens. */
    ghost predicate Plain() {
      && low != [] && Token(low)
      && (high.Some? ==> Token(high.value))
      && (step.Some? ==> Token(step.value))
    }

    static ghost predicate Token(s: string) { ',' !in s && '/' !in s && '-' !in s }

    ghost function RangeText(): string { low + (if high.Some? then "-" + high.value else "") }

    ghost function Text(): string { RangeText() + (if step.Some? then "/" + step.value else "") }

    /** The documented meaning: a star is the whole field, `n/step` runs from `n` to the end
        of the field, everything else is the inclusive interval; None when a token is not a
        number or a name, or the interval leaves the field. */
    ghost function Meaning(r: Bounds): Option<Range> {
      var st := if step.None? then Some(1) else MustParseInt(step.value);
      if st.None? then
        None
      else if low == "*" || low == "?" then
        (if r.min <= r.max then Some(Range(r.min, r.max, st.value, true)) else None)
      else
        var a := ParseIntOrName(low, r.names);
        var b := if high.Some? then ParseIntOrName(high.value, r.names)
                 else if step.Some? then Some(r.max) else a;
        if a.None? || b.None? || !(r.min <= a.value <= b.value <= r.max) then None
        else Some(Range(a.value, b.value, st.value, false))
    }
  }

  lemma TermSplits(t: Term)
    requires t.Plain()
    ensures Split(t.Text(), '/')[1..] == if t.step.Some? then [t.step.value] else []
    ensures Split(Split(t.Text(), '/')[0], '-') ==
            [t.low] + if t.high.Some? then [t.high.value] else []
  {
    StepSplits(t);
    RangeSplits(t);
  }

  lemma StepSplits(t: Term)
    requires t.Plain()
    ensures Split(t.Text(), '/')[0] == t.RangeText()
    ensures Split(t.Text(), '/')[1..] == if t.step.Some? then [t.step.value] else []
  {
    var range := t.RangeText();
    if t.step.Some? {
      assert t.Text() == range + ['/'] + t.step.value;
      SplitPrefix(range, '/', t.step.value);
      SplitNone(t.step.value, '/');
    } else {
      assert t.Text() == range;
      SplitNone(range, '/');
    }
  }

  lemma RangeSplits(t: Term)
    requires t.Plain()
    ensures Split(t.RangeText(), '-') == [t.low] + if t.high.Some? then [t.high.value] else []
  {
    if t.high.Some? {
      assert t.RangeText() == t.low + ['-'] + t.high.value;
      SplitPrefix(t.low, '-', t.high.value);
      SplitNone(t.high.value, '-');
    } else {
      assert t.RangeText() == t.low;
      SplitNone(t.low, '-');
    }
  }

  /** Parsing the text of a part gives its documented meaning, panics included. */
  lemma TermParses(t: Term, r: Bounds)
    requires t.Plain()
    ensures ParseRange(t.Text(), r) == t.Meaning(r)
  {
    TermSplits(t);
  }

  /** The same for a whole field: the parts are recovered from the joined text. */
  lemma FieldParts(terms: seq<Term>)
    requires |terms| >= 1 && forall t <- terms :: t.Plain()
    ensures Fields(Join(Texts(terms), ','), ',') == Texts(terms)
  {
    var texts := Texts(terms);
    assert [] !in texts && forall p <- texts :: ',' !in p by {
      forall i | 0 <= i < |texts|
        ensures texts[i] != [] && ',' !in texts[i]
      {
        assert terms[i] in terms;
      }
    }
    SplitJoin(texts, ',');
    NonEmptyKeepsAll(texts);
  }

  ghost function Texts(terms: seq<Term>): seq<string> {
    seq(|terms|, i requires 0 <= i < |terms| => terms[i].Text())
  }

  /** A field is accepted exactly when every part has a meaning, and then its values are the
      union of the progressions of its parts. */
  lemma FieldMeaning(terms: seq<Term>, r: Bounds)
    requires |terms| >= 1 && forall t <- terms :: t.Plain()
    ensures var exprs := Fields(Join(Texts(terms), ','), ',');
      && (Accepted(exprs, r) <==> forall t <- terms :: t.Meaning(r).Some?)
      && (StepsPositive(exprs, r) <==> forall t <- terms :: t.Meaning(r).Some? ==> t.Meaning(r).value.step >= 1)
      && (Accepted(exprs, r) && StepsPositive(exprs, r) ==>
            UnionOf(exprs, r) == set t, k | t in terms && k in t.Meaning(r).value.Values() :: k)
  {
    FieldParts(terms);
    var texts := Texts(terms);
    forall t | t in terms
      ensures t.Text() in texts && ParseRange(t.Text(), r) == t.Meaning(r)
    {
      var i :| 0 <= i < |terms| && terms[i] == t;
      assert texts[i] == t.Text();
      TermParses(t, r);
    }
    forall e | e in texts
      ensures exists t :: t in terms && t.Text() == e
    {
      var i :| 0 <= i < |texts| && texts[i] == e;
      assert terms[i] in terms;
    }
  }

  // ---- numbers and names ----

  /** `word` is `name` but for the case of its letters, `name` having no upper-case letter. */
  ghost predicate Spells(word: string, name: string) {
    && |word| == |name|
    && forall i :: 0 <= i < |name| ==>
         && !('A' <= name[i] <= 'Z')
         && (word[i] == name[i] || ('A' <= word[i] <= 'Z' && word[i] as int + 32 == name[i] as int))
  }

  /** The text of a number stands for it, a name in any case for its value in the table. */
  lemma TokensParse(n: nat, word: string, name: string, names: map<string, nat>)
    requires n < 0x8000_0000_0000_0000 && Itoa(n) !in names && name in names && Spells(word, name)
    ensures MustParseInt(Itoa(n)) == Some(n) && ParseIntOrName(Itoa(n), names) == Some(n)
    ensures ParseIntOrName(word, names) == Some(names[name])
  {
    AtoiItoa(n);
    LowerNumber(n);
    assert Lower(word) == name;
  }

  lemma NumberToken(n: nat)
    ensures Itoa(n) != [] && Term.Token(Itoa(n)) && Itoa(n) != "*" && Itoa(n) != "?"
  {
    var s := Itoa(n);
    assert IsDigit(s[0]);
    assert !IsDigit(',') && !IsDigit('/') && !IsDigit('-');
  }

  /** The text `a-b/step` of three numbers is accepted exactly when a <= b within the field, and
      stands for every step-th value from a to b. */
  lemma NumbersParse(a: nat, b: nat, step: nat, r: Bounds)
    requires a < 0x8000_0000_0000_0000 && b < 0x8000_0000_0000_0000 && step < 0x8000_0000_0000_0000
    requires Itoa(a) !in r.names && Itoa(b) !in r.names
    ensures ParseRange(Itoa(a) + ("-" + Itoa(b)) + ("/" + Itoa(step)), r) ==
            if r.min <= a <= b <= r.max then Some(Range(a, b, step, false)) else None
  {
    var t := Term(Itoa(a), Some(Itoa(b)), Some(Itoa(step)));
    NumberToken(a);
    NumberToken(b);
    NumberToken(step);
    TermParses(t, r);
    AtoiItoa(a);
    AtoiItoa(b);
    AtoiItoa(step);
    LowerNumber(a);
    LowerNumber(b);
  }
}
