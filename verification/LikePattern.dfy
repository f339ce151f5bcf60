/**
  LIKE patterns made of a needle, as `GenerateOperatorSQL` of `client/orm/db.go` makes them:
  every "%" of the needle gets a backslash, nothing else does.
 */
module LikePattern {
  import opened Text
  import opened UpdateSql

  /** How characters are taken for the same. */
  type Fold = char -> char

  function Exactly(c: char): char { c }

  /** The fold leaves alone what has a meaning in a pattern. */
  ghost predicate Keeps(fold: Fold) {
    forall c :: (fold(c) == '%' <==> c == '%') && (fold(c) == '_' <==> c == '_') && (fold(c) == '\\' <==> c == '\\')
  }

  function Folded(fold: Fold, s: string): (r: string)
    ensures |r| == |s|
  {
    if s == [] then [] else [fold(s[0])] + Folded(fold, s[1..])
  }

  // ---- the meaning of a pattern ----

  /** `t LIKE p`: "%" stands for any text, "_" for any character, and a backslash takes the next
      character as it is.  Without a next character MySQL takes the backslash as it is (`lone`),
      and PostgreSQL refuses the pattern. */
  predicate Like(fold: Fold, lone: bool, t: string, p: string)
    decreases |t| + |p|
  {
    if p == [] then t == []
    else if p[0] == '%' then Like(fold, lone, t, p[1..]) || (t != [] && Like(fold, lone, t[1..], p))
    else if p[0] == '_' then t != [] && Like(fold, lone, t[1..], p[1..])
    else if p[0] == '\\' && |p| >= 2 then t != [] && fold(t[0]) == fold(p[1]) && Like(fold, lone, t[1..], p[2..])
    else if p[0] == '\\' && !lone then false
    else t != [] && fold(t[0]) == fold(p[0]) && Like(fold, lone, t[1..], p[1..])
  }

  /** Folding text and pattern first comes to the same. */
  lemma {:induction false} FoldedLike(fold: Fold, lone: bool, t: string, p: string)
    requires Keeps(fold)
    ensures Like(Exactly, lone, Folded(fold, t), Folded(fold, p)) <==> Like(fold, lone, t, p)
    decreases |t| + |p|
  {
    if p != [] {
      if p[0] == '%' {
        FoldedLike(fold, lone, t, p[1..]);
        if t != [] {
          FoldedLike(fold, lone, t[1..], p);
        }
      } else if p[0] == '\\' && |p| >= 2 {
        assert Folded(fold, p)[2..] == Folded(fold, p[2..]) && Folded(fold, p)[1] == fold(p[1]);
        if t != [] {
          FoldedLike(fold, lone, t[1..], p[2..]);
        }
      } else if t != [] {
        FoldedLike(fold, lone, t[1..], p[1..]);
      }
    }
  }

  // ---- what the patterns are for ----

  ghost predicate Equals(fold: Fold, t: string, n: string) { Folded(fold, t) == Folded(fold, n) }

  ghost predicate Starts(fold: Fold, t: string, n: string) { |n| <= |t| && Equals(fold, t[..|n|], n) }

  ghost predicate EndsIn(fold: Fold, t: string, n: string) { |n| <= |t| && Equals(fold, t[|t| - |n|..], n) }

  ghost predicate Occurs(fold: Fold, t: string, n: string) {
    exists i :: 0 <= i <= |t| && Starts(fold, t[i..], n)
  }

  /** No character of the needle has a meaning in a pattern, but for "%", which is escaped, and
      for a last backslash where it is taken as it is. */
  ghost predicate PlainNeedle(n: string, lone: bool) {
    '_' !in n && forall i :: 0 <= i < |n| && n[i] == '\\' ==> lone && i == |n| - 1
  }

  lemma PlainTail(n: string, lone: bool)
    requires n != [] && PlainNeedle(n, lone)
    ensures PlainNeedle(n[1..], lone) && n[0] != '_' && (n[0] == '\\' ==> lone && |n| == 1)
  {
    assert n[0] in n;
  }

  // ---- a plain needle finds what it should ----

  lemma {:induction false} AnyText(fold: Fold, lone: bool, t: string)
    ensures Like(fold, lone, t, "%")
  {
    assert "%"[1..] == "";
    if t != [] {
      AnyText(fold, lone, t[1..]);
    }
  }

  lemma EqualsStep(fold: Fold, t: string, n: string)
    requires t != [] && n != []
    ensures Equals(fold, t, n) <==> fold(t[0]) == fold(n[0]) && Equals(fold, t[1..], n[1..])
  {
    assert Folded(fold, t)[1..] == Folded(fold, t[1..]) && Folded(fold, n)[1..] == Folded(fold, n[1..]);
  }

  function EscapedChar(c: char): string { if c == '%' then ['\\', '%'] else [c] }

  lemma EscapedFirst(n: string, tail: string)
    requires n != []
    ensures EscapePercent(n) + tail == EscapedChar(n[0]) + (EscapePercent(n[1..]) + tail)
  {
    Associates(EscapedChar(n[0]), EscapePercent(n[1..]), tail);
  }

  lemma LikeChar(fold: Fold, lone: bool, t: string, c: char, rest: string)
    requires c != '_' && c != '\\'
    ensures Like(fold, lone, t, EscapedChar(c) + rest) <==> t != [] && fold(t[0]) == fold(c) && Like(fold, lone, t[1..], rest)
  {
    var p := EscapedChar(c) + rest;
    if c == '%' {
      assert p[0] == '\\' && p[1] == '%' && p[2..] == rest;
    } else {
      assert p[0] == c && p[1..] == rest;
    }
  }

  /** One character of the needle in front of a pattern. */
  lemma LikeStep(fold: Fold, lone: bool, t: string, n: string, tail: string)
    requires n != [] && n[0] != '_' && n[0] != '\\'
    ensures Like(fold, lone, t, EscapePercent(n) + tail) <==>
            t != [] && fold(t[0]) == fold(n[0]) && Like(fold, lone, t[1..], EscapePercent(n[1..]) + tail)
  {
    EscapedFirst(n, tail);
    LikeChar(fold, lone, t, n[0], EscapePercent(n[1..]) + tail);
  }

  lemma {:induction false} PlainEquals(fold: Fold, lone: bool, t: string, n: string)
    requires PlainNeedle(n, lone)
    ensures Like(fold, lone, t, EscapePercent(n) + "") <==> Equals(fold, t, n)
    decreases n
  {
    if n == [] {
      assert EscapePercent(n) + "" == "";
    } else {
      PlainTail(n, lone);
      if n[0] == '\\' {
        LoneBackslash(fold, t, n);
      } else {
        LikeStep(fold, lone, t, n, "");
        if t != [] {
          PlainEquals(fold, lone, t[1..], n[1..]);
          EqualsStep(fold, t, n);
        }
      }
    }
  }

  lemma LoneBackslash(fold: Fold, t: string, n: string)
    requires n == ['\\']
    ensures Like(fold, true, t, EscapePercent(n) + "") <==> Equals(fold, t, n)
  {
    assert EscapePercent(n[1..]) == "" && EscapePercent(n) + "" == n;
    if t != [] {
      EqualsStep(fold, t, n);
      assert Equals(fold, t[1..], n[1..]) <==> t[1..] == [];
    }
  }

  lemma {:induction false} PlainStarts(fold: Fold, lone: bool, t: string, n: string)
    requires PlainNeedle(n, false)
    ensures Like(fold, lone, t, EscapePercent(n) + "%") <==> Starts(fold, t, n)
    decreases n
  {
    if n == [] {
      assert EscapePercent(n) + "%" == "%";
      AnyText(fold, lone, t);
      assert t[..0] == [];
    } else {
      PlainTail(n, false);
      LikeStep(fold, lone, t, n, "%");
      if t != [] {
        PlainStarts(fold, lone, t[1..], n[1..]);
        if |n| <= |t| {
          EqualsStep(fold, t[..|n|], n);
          assert t[..|n|][1..] == t[1..][..|n| - 1];
        }
      }
    }
  }

  /** A leading "%" looks for the rest at every position. */
  lemma {:induction false} Anywhere(fold: Fold, lone: bool, t: string, p: string)
    ensures Like(fold, lone, t, "%" + p) <==> exists i :: 0 <= i <= |t| && Like(fold, lone, t[i..], p)
  {
    assert ("%" + p)[1..] == p;
    assert t[0..] == t;
    if t != [] {
      Anywhere(fold, lone, t[1..], p);
      assert forall i :: 1 <= i <= |t| ==> t[i..] == t[1..][i - 1..];
      if Like(fold, lone, t[1..], "%" + p) {
        var i :| 0 <= i <= |t[1..]| && Like(fold, lone, t[1..][i..], p);
        assert t[i + 1..] == t[1..][i..];
      }
    }
  }

  lemma PlainContains(fold: Fold, lone: bool, t: string, n: string)
    requires PlainNeedle(n, false)
    ensures Like(fold, lone, t, "%" + (EscapePercent(n) + "%")) <==> Occurs(fold, t, n)
  {
    Anywhere(fold, lone, t, EscapePercent(n) + "%");
    forall i | 0 <= i <= |t|
      ensures Like(fold, lone, t[i..], EscapePercent(n) + "%") <==> Starts(fold, t[i..], n)
    {
      PlainStarts(fold, lone, t[i..], n);
    }
  }

  lemma PlainEnds(fold: Fold, lone: bool, t: string, n: string)
    requires PlainNeedle(n, lone)
    ensures Like(fold, lone, t, "%" + (EscapePercent(n) + "")) <==> EndsIn(fold, t, n)
  {
    var p := EscapePercent(n) + "";
    Anywhere(fold, lone, t, p);
    if Like(fold, lone, t, "%" + p) {
      var i :| 0 <= i <= |t| && Like(fold, lone, t[i..], p);
      PlainEquals(fold, lone, t[i..], n);
      EqualLengths(fold, t[i..], n);
    }
    if EndsIn(fold, t, n) {
      PlainEquals(fold, lone, t[|t| - |n|..], n);
    }
  }

  lemma EqualLengths(fold: Fold, t: string, n: string)
    requires Equals(fold, t, n)
    ensures |t| == |n|
  {
    assert |Folded(fold, t)| == |Folded(fold, n)|;
  }

  // ---- any other needle does not ----

  /** A text the pattern matches. */
  function Instance(p: string): string {
    if p == [] then []
    else if p[0] == '%' then Instance(p[1..])
    else if p[0] == '_' then ['x'] + Instance(p[1..])
    else if p[0] == '\\' && |p| >= 2 then [p[1]] + Instance(p[2..])
    else [p[0]] + Instance(p[1..])
  }

  /** The pattern ends with a backslash that has nothing to escape. */
  predicate Dangling(p: string) {
    if p == [] then false
    else if p[0] == '\\' then |p| == 1 || Dangling(p[2..])
    else Dangling(p[1..])
  }

  lemma {:induction false} InstanceLike(fold: Fold, lone: bool, p: string)
    requires lone || !Dangling(p)
    ensures Like(fold, lone, Instance(p), p)
  {
    if p != [] {
      var t := Instance(p);
      if p[0] == '%' {
        InstanceLike(fold, lone, p[1..]);
      } else if p[0] == '\\' && |p| >= 2 {
        InstanceLike(fold, lone, p[2..]);
        assert t[1..] == Instance(p[2..]);
      } else {
        InstanceLike(fold, lone, p[1..]);
        assert t[1..] == Instance(p[1..]);
      }
    }
  }

  lemma {:induction false} DanglingNever(fold: Fold, t: string, p: string)
    requires Dangling(p)
    ensures !Like(fold, false, t, p)
    decreases |t| + |p|
  {
    if p[0] == '%' {
      DanglingNever(fold, t, p[1..]);
      if t != [] {
        DanglingNever(fold, t[1..], p);
      }
    } else if t != [] {
      if p[0] != '\\' {
        DanglingNever(fold, t[1..], p[1..]);
      } else if |p| >= 2 {
        DanglingNever(fold, t[1..], p[2..]);
      }
    }
  }

  /** The text a needle's pattern matches is not longer than the needle, and is the needle, up to
      the fold, only if the needle is plain. */
  ghost predicate Shrinks(fold: Fold, lone: bool, n: string, tail: string) {
    var p := EscapePercent(n) + tail;
    && |Instance(p)| <= |n|
    && (Equals(fold, Instance(p), n) && (lone || !Dangling(p)) ==> PlainNeedle(n, lone && tail == ""))
  }

  lemma InstanceChar(c: char, rest: string)
    requires c != '\\'
    ensures var p := EscapedChar(c) + rest;
      Instance(p) == [if c == '_' then 'x' else c] + Instance(rest) && (Dangling(p) <==> Dangling(rest))
  {
    var p := EscapedChar(c) + rest;
    if c == '%' {
      assert p[0] == '\\' && p[1] == '%' && p[2..] == rest;
    } else {
      assert p[0] == c && p[1..] == rest;
    }
  }

  lemma ShrinkPlain(fold: Fold, lone: bool, n: string, tail: string)
    requires Keeps(fold) && n != [] && n[0] != '\\' && Shrinks(fold, lone, n[1..], tail)
    ensures Shrinks(fold, lone, n, tail)
  {
    var p, rest := EscapePercent(n) + tail, EscapePercent(n[1..]) + tail;
    EscapedFirst(n, tail);
    InstanceChar(n[0], rest);
    var t := Instance(p);
    assert t[1..] == Instance(rest);
    EqualsStep(fold, t, n);
    if Equals(fold, t, n) && (lone || !Dangling(p)) {
      assert fold('x') != '_' && n[0] != '_';
      PlainCons(n, lone && tail == "");
    }
  }

  lemma PlainCons(n: string, lone: bool)
    requires n != [] && n[0] != '_' && n[0] != '\\' && PlainNeedle(n[1..], lone)
    ensures PlainNeedle(n, lone)
  {
    assert n == [n[0]] + n[1..];
  }

  /** A backslash swallows a character. */
  lemma Swallowed(n: string, tail: string)
    requires |n| >= 2 && n[0] == '\\'
    ensures |Instance(EscapePercent(n) + tail)| == 1 + |Instance(EscapePercent(n[2..]) + tail)|
  {
    var m, rest := n[1..], EscapePercent(n[2..]) + tail;
    assert m[1..] == n[2..];
    EscapedFirst(n, tail);
    EscapedFirst(m, tail);
    SwallowedChar(m[0], rest);
  }

  lemma SwallowedChar(c: char, rest: string)
    ensures |Instance(['\\'] + (EscapedChar(c) + rest))| == 1 + |Instance(rest)|
  {
    var p := ['\\'] + (EscapedChar(c) + rest);
    if c == '%' {
      assert p[2..] == ['%'] + rest;
      assert (['%'] + rest)[1..] == rest;
    } else {
      assert p[2..] == rest;
    }
  }

  lemma ShrinkBackslash(fold: Fold, lone: bool, n: string, tail: string)
    requires |n| >= 2 && n[0] == '\\' && Shrinks(fold, lone, n[2..], tail)
    ensures Shrinks(fold, lone, n, tail)
  {
    Swallowed(n, tail);
    if Equals(fold, Instance(EscapePercent(n) + tail), n) {
      EqualLengths(fold, Instance(EscapePercent(n) + tail), n);
    }
  }

  lemma ShrinkLast(fold: Fold, lone: bool, n: string, tail: string)
    requires Keeps(fold) && n == ['\\'] && (tail == "" || tail == "%")
    ensures Shrinks(fold, lone, n, tail)
  {
    assert EscapePercent(n[1..]) == "" && EscapePercent(n) == n;
    var p := n + tail;
    if tail == "" {
      assert p == n && Instance(p) == n;
    } else {
      assert p[2..] == [] && Instance(p) == ['%'];
      EqualsStep(fold, ['%'], n);
    }
  }

  lemma {:induction false} InstanceShrinks(fold: Fold, lone: bool, n: string, tail: string)
    requires Keeps(fold) && (tail == "" || tail == "%")
    ensures Shrinks(fold, lone, n, tail)
    decreases |n|
  {
    if n == [] {
      assert EscapePercent(n) + tail == tail;
      assert tail == "%" ==> tail[1..] == "";
    } else if n[0] != '\\' {
      InstanceShrinks(fold, lone, n[1..], tail);
      ShrinkPlain(fold, lone, n, tail);
    } else if |n| == 1 {
      ShrinkLast(fold, lone, n, tail);
    } else {
      InstanceShrinks(fold, lone, n[2..], tail);
      ShrinkBackslash(fold, lone, n, tail);
    }
  }

  /** The text does not hold the needle and is found, or is the needle and is not found. */
  ghost predicate WrongOn(fold: Fold, lone: bool, p: string, n: string, t: string) {
    if t == n then !Like(fold, lone, t, p) else Like(fold, lone, t, p) && !Occurs(fold, t, n)
  }

  lemma LeadChangesNothing(lead: string, p: string)
    requires lead == "" || lead == "%"
    ensures Instance(lead + p) == Instance(p) && (Dangling(lead + p) <==> Dangling(p))
  {
    if lead == "%" {
      assert (lead + p)[1..] == p;
    } else {
      assert lead + p == p;
    }
  }

  /** For a needle that is not plain some text is found wrongly, or the needle itself is not. */
  lemma WrongText(fold: Fold, lone: bool, lead: string, n: string, tail: string) returns (t: string)
    requires Keeps(fold) && (lead == "" || lead == "%") && (tail == "" || tail == "%") && !PlainNeedle(n, lone && tail == "")
    ensures WrongOn(fold, lone, lead + (EscapePercent(n) + tail), n, t)
  {
    var p := EscapePercent(n) + tail;
    LeadChangesNothing(lead, p);
    if !lone && Dangling(p) {
      t := n;
      DanglingNever(fold, t, lead + p);
    } else {
      t := Instance(p);
      InstanceShrinks(fold, lone, n, tail);
      InstanceLike(fold, lone, lead + p);
      assert !Equals(fold, t, n);
      NotContained(fold, t, n);
    }
  }

  lemma NotContained(fold: Fold, t: string, n: string)
    requires |t| <= |n| && !Equals(fold, t, n)
    ensures !Occurs(fold, t, n) && t != n
  {
    forall i | 0 <= i <= |t|
      ensures !Starts(fold, t[i..], n)
    {
      if |n| <= |t| - i {
        assert t[i..] == t && t[i..][..|n|] == t;
      }
    }
  }

  lemma SelfRelated(fold: Fold, n: string)
    ensures Equals(fold, n, n) && Starts(fold, n, n) && EndsIn(fold, n, n)
  {
    assert n[..|n|] == n && n[0..] == n;
  }

  lemma RelatedContains(fold: Fold, t: string, n: string)
    ensures Equals(fold, t, n) || Starts(fold, t, n) || EndsIn(fold, t, n) ==> Occurs(fold, t, n)
  {
    assert t[0..] == t && t[..|t|] == t;
    if EndsIn(fold, t, n) {
      var i := |t| - |n|;
      assert t[i..][..|n|] == t[i..];
      assert Starts(fold, t[i..], n);
    }
    if Equals(fold, t, n) {
      assert Folded(fold, t) == Folded(fold, n) && |t| == |n|;
      assert Starts(fold, t[0..], n);
    }
    if Starts(fold, t, n) {
      assert Starts(fold, t[0..], n);
    }
  }

  // ---- a pattern means its relation exactly for plain needles ----

  /** Where a needle is looked for. */
  datatype Place = Whole | Front | Back | Inside

  ghost predicate Found(place: Place, fold: Fold, t: string, n: string) {
    match place
    case Whole => Equals(fold, t, n)
    case Front => Starts(fold, t, n)
    case Back => EndsIn(fold, t, n)
    case Inside => Occurs(fold, t, n)
  }

  /** The pattern for it. */
  function PatternOf(place: Place, n: string): string {
    match place
    case Whole => EscapePercent(n)
    case Front => EscapePercent(n) + "%"
    case Back => "%" + EscapePercent(n)
    case Inside => "%" + EscapePercent(n) + "%"
  }

  function Lead(place: Place): string { if place.Back? || place.Inside? then "%" else "" }

  function Trail(place: Place): string { if place.Front? || place.Inside? then "%" else "" }

  lemma PatternParts(place: Place, n: string)
    ensures PatternOf(place, n) == Lead(place) + (EscapePercent(n) + Trail(place))
  {
    var p := EscapePercent(n);
    assert p + "" == p && "" + p == p && "" + (p + "%") == p + "%" && "%" + (p + "%") == "%" + p + "%";
  }

  lemma PlainFound(place: Place, fold: Fold, lone: bool, t: string, n: string)
    requires PlainNeedle(n, lone && Trail(place) == "")
    ensures Like(fold, lone, t, PatternOf(place, n)) <==> Found(place, fold, t, n)
  {
    PatternParts(place, n);
    var p := EscapePercent(n);
    assert "" + (p + "") == p + "" && "" + (p + "%") == p + "%";
    match place
    case Whole => PlainEquals(fold, lone, t, n);
    case Front => PlainStarts(fold, lone, t, n);
    case Back => PlainEnds(fold, lone, t, n);
    case Inside => PlainContains(fold, lone, t, n);
  }

  /** The pattern finds the needle exactly where it is, in every text. */
  ghost predicate FindsRight(place: Place, fold: Fold, lone: bool, n: string) {
    forall t :: Like(fold, lone, t, PatternOf(place, n)) <==> Found(place, fold, t, n)
  }

  /** That is so if and only if the needle holds no "_" and no backslash, but for one at its end
      when no "%" follows it and a lone one is taken as it is. */
  lemma PatternMeansIff(place: Place, fold: Fold, lone: bool, n: string)
    requires Keeps(fold)
    ensures FindsRight(place, fold, lone, n) <==> PlainNeedle(n, lone && (place.Whole? || place.Back?))
  {
    assert Trail(place) == "" <==> place.Whole? || place.Back?;
    if PlainNeedle(n, lone && Trail(place) == "") {
      forall t
        ensures Like(fold, lone, t, PatternOf(place, n)) <==> Found(place, fold, t, n)
      {
        PlainFound(place, fold, lone, t, n);
      }
    } else {
      var t := WrongText(fold, lone, Lead(place), n, Trail(place));
      PatternParts(place, n);
      SelfRelated(fold, n);
      RelatedContains(fold, n, n);
      RelatedContains(fold, t, n);
      assert Like(fold, lone, t, PatternOf(place, n)) != Found(place, fold, t, n);
    }
  }

  /** A needle without "%" stands in its pattern as it is. */
  lemma NeedleShows(place: Place, n: string)
    requires '%' !in n
    ensures PatternOf(place, n) == Lead(place) + (n + Trail(place))
  {
    EscapeLonger(n);
    PatternParts(place, n);
  }

  /** The needle "_" is found in "x". */
  lemma UnderscoreIsWild(fold: Fold, lone: bool)
    requires fold('x') != fold('_')
    ensures Like(fold, lone, "x", PatternOf(Inside, "_")) && !Occurs(fold, "x", "_")
  {
    var p := PatternOf(Inside, "_");
    assert EscapePercent("_"[1..]) == "";
    assert EscapePercent("_") == "_";
    assert p == "%_%" && p[1..] == "_%";
    assert "_%"[1..] == "%" && "x"[1..] == "";
    AnyText(fold, lone, "");
    EqualsStep(fold, "x", "_");
    NotContained(fold, "x", "_");
  }
}
