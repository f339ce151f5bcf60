/** What single lines of an INI file store and what names of a container address, in terms of the
    characters written (`core/config/ini.go`). */
module IniMeaning {
  import opened Text
  import opened Ini

  ghost predicate Spaces(s: string) { forall c <- s :: IsSpace(c) }

  ghost predicate Quotes(s: string) { forall c <- s :: c == '"' }

  /** `s` with every character in lower case. */
  ghost predicate Lowered(lower: Lower, s: string, r: string) { |r| == |s| && forall i :: 0 <= i < |s| ==> r[i] == lower(s[i]) }

  // ---- trimming ----

  lemma {:induction false} TrimsLeft(sp: string, s: string)
    requires Spaces(sp) && (s == [] || !IsSpace(s[0]))
    ensures TrimLeft(sp + s) == s
  {
    if sp == [] {
      assert sp + s == s;
    } else {
      assert sp[0] in sp && (sp + s)[1..] == sp[1..] + s;
      TrimsLeft(sp[1..], s);
    }
  }

  lemma {:induction false} TrimsRight(s: string, sp: string)
    requires Spaces(sp) && (s == [] || !IsSpace(s[|s| - 1]))
    ensures TrimRight(s + sp) == s
  {
    if sp == [] {
      assert s + sp == s;
    } else {
      var n := |sp| - 1;
      assert sp[n] in sp && (s + sp)[..|s + sp| - 1] == s + sp[..n];
      TrimsRight(s, sp[..n]);
    }
  }

  lemma Trims(before: string, s: string, after: string)
    requires Spaces(before) && Spaces(after) && s != [] && Trimmed(s)
    ensures TrimSpace(before + s + after) == s
  {
    assert before + s + after == before + (s + after);
    TrimsLeft(before, s + after);
    TrimsRight(s, after);
  }

  lemma {:induction false} DropsLeft(q: string, s: string)
    requires Quotes(q) && !HasPrefix(s, '"')
    ensures DropLeft(q + s, '"') == s
  {
    if q == [] {
      assert q + s == s;
    } else {
      assert q[0] in q && (q + s)[1..] == q[1..] + s;
      assert forall c <- q[1..] :: c in q;
      DropsLeft(q[1..], s);
    }
  }

  lemma {:induction false} DropsRight(s: string, q: string)
    requires Quotes(q) && !HasSuffix(s, '"')
    ensures DropRight(s + q, '"') == s
  {
    if q == [] {
      assert s + q == s;
    } else {
      var n := |q| - 1;
      assert q[n] in q && (s + q)[..|s + q| - 1] == s + q[..n];
      assert forall c <- q[..n] :: c in q;
      DropsRight(s, q[..n]);
    }
  }

  lemma DropsQuotes(q: string, v: string, r: string)
    requires Quotes(q) && Quotes(r) && q != [] && v != [] && !HasPrefix(v, '"') && !HasSuffix(v, '"')
    ensures Unquoted(q + v + r) == v
  {
    var s := q + v + r;
    assert q[0] in q && s[0] == '"';
    assert s == q + (v + r) && (v + r)[0] == v[0];
    DropsLeft(q, v + r);
    DropsRight(v, r);
  }

  // ---- lines ----

  /** After the line, the key of the current section has the value and all the rest is as before;
      a pending comment goes to the key. */
  ghost predicate Stores(st: State, st': State, key: string, val: string) {
    && st'.section == st.section && st'.comment == ""
    && SectionOf(st'.cfg.data, st.section) == SectionOf(st.cfg.data, st.section)[key := val]
    && (forall s :: s != st.section ==> SectionOf(st'.cfg.data, s) == SectionOf(st.cfg.data, s))
    && st'.cfg.data.Keys == st.cfg.data.Keys + {st.section}
    && st'.cfg.sectionComment == st.cfg.sectionComment
    && st'.cfg.keyComment == (if st.comment == "" then st.cfg.keyComment else st.cfg.keyComment[st.section + "." + key := st.comment])
  }

  ghost predicate KeyText(k: string) {
    k != [] && Trimmed(k) && '=' !in k && k[0] != '#' && k[0] != ';' && k[0] != '['
  }

  lemma StoredAs(st: State, key: string, val: string)
    ensures Stores(st, StoreValue(st, key, val), key, val)
  {
  }

  lemma KeyIsCut(k: string, gap: string, rest: string)
    requires KeyText(k) && Spaces(gap)
    ensures Cut(k + gap + "=" + rest, '=') == (k + gap, Some(rest)) && TrimSpace(k + gap) == k
  {
    assert '=' !in gap by {
      assert !IsSpace('=');
    }
    CutAtKey(k + gap, rest);
    Trims("", k, gap);
    assert "" + k + gap == k + gap;
  }

  /** A line of a key and a text behind "=", with any spaces around them. */
  lemma KeyLine(st: State, left: string, k: string, gap: string, gap2: string, text: string, right: string, lower: Lower, world: World)
    requires KeyText(k) && text != [] && Trimmed(text) && Spaces(left) && Spaces(gap) && Spaces(gap2) && Spaces(right)
    ensures ParseLine(st, left + (k + gap + "=" + (gap2 + text)) + right, lower, world) ==
            Going(StoreValue(st, ToLower(lower, k), Expanded(Unquoted(text), world.getenv)))
  {
    var line := k + gap + "=" + (gap2 + text);
    assert line[0] == k[0] && line[|line| - 1] == text[|text| - 1];
    Trims(left, line, right);
    KeyIsCut(k, gap, gap2 + text);
    Trims(gap2, text, "");
    assert gap2 + text + "" == gap2 + text;
  }

  /** `Key = "v"`: the key in lower case gets what stands between the quotes, spaces kept, with
      an environment form expanded. */
  lemma QuotedLine(st: State, left: string, k: string, gap: string, gap2: string, q: string, v: string, r: string, right: string,
                   lower: Lower, world: World) returns (key: string, st': State)
    requires KeyText(k) && Spaces(left) && Spaces(gap) && Spaces(gap2) && Spaces(right)
    requires Quotes(q) && Quotes(r) && q != [] && r != [] && v != [] && !HasPrefix(v, '"') && !HasSuffix(v, '"')
    ensures ParseLine(st, left + (k + gap + "=" + (gap2 + (q + v + r))) + right, lower, world) == Going(st')
    ensures Lowered(lower, k, key) && Stores(st, st', key, Expanded(v, world.getenv))
    ensures !EnvForm(v) ==> Stores(st, st', key, v)
  {
    var text := q + v + r;
    assert q[0] in q && r[|r| - 1] in r && text[0] == q[0] && text[|text| - 1] == r[|r| - 1];
    assert !IsSpace('"');
    KeyLine(st, left, k, gap, gap2, text, right, lower, world);
    DropsQuotes(q, v, r);
    key := ToLower(lower, k);
    st' := StoreValue(st, key, Expanded(v, world.getenv));
    StoredAs(st, key, Expanded(v, world.getenv));
  }

  /** `Key = v` without a leading quote stores `v` as it stands, a quote at its end included. */
  lemma BareLine(st: State, left: string, k: string, gap: string, gap2: string, v: string, right: string, lower: Lower, world: World)
    returns (key: string, st': State)
    requires KeyText(k) && Spaces(left) && Spaces(gap) && Spaces(gap2) && Spaces(right)
    requires v != [] && Trimmed(v) && !HasPrefix(v, '"')
    ensures ParseLine(st, left + (k + gap + "=" + (gap2 + v)) + right, lower, world) == Going(st')
    ensures Lowered(lower, k, key) && Stores(st, st', key, Expanded(v, world.getenv))
    ensures !EnvForm(v) ==> Stores(st, st', key, v)
  {
    KeyLine(st, left, k, gap, gap2, v, right, lower, world);
    key := ToLower(lower, k);
    st' := StoreValue(st, key, Expanded(v, world.getenv));
    StoredAs(st, key, Expanded(v, world.getenv));
  }

  /** `[Name]`: the name in lower case becomes the current section and is there. */
  lemma NameLine(st: State, left: string, name: string, right: string, lower: Lower, world: World) returns (section: string, st': State)
    requires Spaces(left) && Spaces(right)
    ensures ParseLine(st, left + ("[" + name + "]") + right, lower, world) == Going(st')
    ensures Lowered(lower, name, section) && st'.section == section && st'.comment == ""
    ensures st'.cfg.data.Keys == st.cfg.data.Keys + {section} && st'.cfg.keyComment == st.cfg.keyComment
    ensures forall s :: SectionOf(st'.cfg.data, s) == SectionOf(st.cfg.data, s)
    ensures st'.cfg.sectionComment == if st.comment == "" then st.cfg.sectionComment else st.cfg.sectionComment[section := st.comment]
  {
    var line := "[" + name + "]";
    assert line[0] == '[' && line[|line| - 1] == ']' && line[1..|line| - 1] == name;
    Trims(left, line, right);
    section := ToLower(lower, name);
    st' := EnterSection(st, section);
  }

  lemma {:induction false} WordEnds(w: string, rest: string)
    requires (forall c <- w :: !IsSpace(c)) && (rest == [] || IsSpace(rest[0]))
    ensures Word(w + rest) == w
  {
    if w == [] {
      assert w + rest == rest;
    } else {
      assert w[0] in w && (w + rest)[1..] == w[1..] + rest && (w + rest)[0] == w[0];
      WordEnds(w[1..], rest);
      assert [w[0]] + w[1..] == w;
    }
  }

  lemma TwoWords(a: string, gap: string, b: string)
    requires a != [] && b != [] && gap != [] && Spaces(gap) && (forall c <- a :: !IsSpace(c)) && (forall c <- b :: !IsSpace(c))
    ensures Words(a + gap + b) == [a, b]
  {
    assert a[0] in a && b[0] in b && gap[0] in gap;
    var s := a + gap + b;
    assert s == a + (gap + b);
    WordEnds(a, gap + b);
    assert TrimLeft(s) == s && s[|a|..] == gap + b;
    OneWord(gap, b);
  }

  lemma OneWord(gap: string, b: string)
    requires b != [] && Spaces(gap) && forall c <- b :: !IsSpace(c)
    ensures Words(gap + b) == [b]
  {
    assert b[0] in b && b + [] == b;
    TrimsLeft(gap, b);
    WordEnds(b, []);
    assert b[|b|..] == [];
    assert Words([]) == [];
  }

  /** `include "File"`: the parsed file is laid over what is there.  The name asked for is the one
      written, but in lower case. */
  lemma IncludeLine(st: State, left: string, word: string, gap: string, file: string, right: string, lower: Lower, world: World)
    returns (name: string)
    requires Spaces(left) && Spaces(right) && gap != [] && Spaces(gap) && word == "include"
    requires file != [] && (forall c <- file :: !IsSpace(c) && !IsSpace(lower(c)) && c != '=')
    requires (forall c <- word :: lower(c) == c) && (forall c <- gap :: IsSpace(lower(c))) && lower('"') == '"'
    requires forall c :: lower(c) == '"' ==> c == '"'
    requires !HasPrefix(file, '"') && !HasSuffix(file, '"')
    ensures Lowered(lower, file, name)
    ensures ParseLine(st, left + (word + gap + ("\"" + file + "\"")) + right, lower, world) ==
            match world.load(name) case None => BadInclude(name) case Some(other) => Going(IncludeFile(st, other))
  {
    var quoted := "\"" + file + "\"";
    var line := word + gap + quoted;
    name := ToLower(lower, file);
    assert line[0] == 'i' && line[|line| - 1] == '"' && !IsSpace('i') && !IsSpace('"');
    Trims(left, line, right);
    NoEquals(word, gap, file);
    IncludeName(lower, word, gap, file, name);
    IncludeParsed(st, left + line + right, line, name, lower, world);
  }

  lemma IncludeParsed(st: State, raw: string, line: string, name: string, lower: Lower, world: World)
    requires TrimSpace(raw) == line && line != [] && line[0] == 'i' && Trimmed(line) && '=' !in line
    requires IncludedFile(ToLower(lower, line)) == Some(name)
    ensures ParseLine(st, raw, lower, world) ==
            match world.load(name) case None => BadInclude(name) case Some(other) => Going(IncludeFile(st, other))
  {
    NothingToCut(line);
    TrimmedStays(line);
  }

  lemma NoEquals(word: string, gap: string, file: string)
    requires word == "include" && Spaces(gap) && '=' !in file
    ensures '=' !in word + gap + ("\"" + file + "\"")
  {
    assert !IsSpace('=');
  }

  lemma {:induction false} NothingToCut(s: string)
    requires '=' !in s
    ensures Cut(s, '=') == (s, None)
  {
    if s != [] {
      NothingToCut(s[1..]);
      assert [s[0]] + s[1..] == s;
    }
  }

  lemma IncludeName(lower: Lower, word: string, gap: string, file: string, name: string)
    requires gap != [] && word == "include" && (forall c <- word :: lower(c) == c) && (forall c <- gap :: IsSpace(lower(c)))
    requires lower('"') == '"' && (forall c :: lower(c) == '"' ==> c == '"') && name == ToLower(lower, file)
    requires file != [] && (forall c <- file :: !IsSpace(lower(c))) && !HasPrefix(file, '"') && !HasSuffix(file, '"')
    ensures IncludedFile(ToLower(lower, word + gap + ("\"" + file + "\""))) == Some(name)
  {
    LoweredLine(lower, word, gap, file);
    assert (forall c <- name :: !IsSpace(c)) && Spaces(ToLower(lower, gap));
    IncludeText(word, ToLower(lower, gap), name);
  }

  lemma IncludeText(word: string, gap: string, name: string)
    requires word == "include" && gap != [] && Spaces(gap)
    requires name != [] && (forall c <- name :: !IsSpace(c)) && !HasPrefix(name, '"') && !HasSuffix(name, '"')
    ensures IncludedFile(word + gap + ("\"" + name + "\"")) == Some(name)
  {
    var quoted := "\"" + name + "\"";
    var key := word + gap + quoted;
    PlainWords(name);
    TwoWords(word, gap, quoted);
    assert key == word + (gap + quoted);
    InQuotes(name);
  }

  lemma PlainWords(name: string)
    requires forall c <- name :: !IsSpace(c)
    ensures (forall c <- "include" :: !IsSpace(c)) && (forall c <- "\"" + name + "\"" :: !IsSpace(c))
  {
  }

  lemma LowersConcat(lower: Lower, a: string, b: string)
    ensures ToLower(lower, a + b) == ToLower(lower, a) + ToLower(lower, b)
  {
  }

  lemma LoweredLine(lower: Lower, word: string, gap: string, file: string)
    requires (forall c <- word :: lower(c) == c) && lower('"') == '"'
    ensures ToLower(lower, word + gap + ("\"" + file + "\"")) == word + ToLower(lower, gap) + ("\"" + ToLower(lower, file) + "\"")
  {
    LowersConcat(lower, "\"", file);
    LowersConcat(lower, "\"" + file, "\"");
    LowersConcat(lower, word, gap);
    LowersConcat(lower, word + gap, "\"" + file + "\"");
    assert ToLower(lower, word) == word;
    assert ToLower(lower, "\"") == "\"";
  }

  lemma InQuotes(name: string)
    requires name != [] && !HasPrefix(name, '"') && !HasSuffix(name, '"')
    ensures DropRight(DropLeft("\"" + name + "\"", '"'), '"') == name
  {
    assert (name + "\"")[0] == name[0] && "\"" + (name + "\"") == "\"" + name + "\"";
    DropsLeft("\"", name + "\"");
    DropsRight(name, "\"");
  }

  // ---- names of a container ----

  /** The mapping leaves colons alone. */
  ghost predicate ColonsStay(lower: Lower) { forall c :: lower(c) == ':' <==> c == ':' }

  lemma {:induction false} CutsAtColons(a: string, rest: string)
    requires ':' !in a
    ensures CutColons(a + "::" + rest) == (a, Some(rest))
  {
    var s := a + "::" + rest;
    if a == [] {
      assert s[0] == ':' && s[1] == ':' && s[2..] == rest;
    } else {
      assert s[1..] == a[1..] + "::" + rest && s[0] == a[0] && a[0] in a;
      CutsAtColons(a[1..], rest);
      assert [a[0]] + a[1..] == a;
    }
  }

  lemma {:induction false} NoColonsToCut(a: string)
    requires ':' !in a
    ensures CutColons(a) == (a, None)
  {
    if |a| >= 2 {
      assert a[0] in a;
      NoColonsToCut(a[1..]);
      assert [a[0]] + a[1..] == a;
    }
  }

  lemma LowersParts(lower: Lower, a: string, b: string)
    requires ColonsStay(lower)
    ensures ToLower(lower, a + "::" + b) == ToLower(lower, a) + "::" + ToLower(lower, b)
    ensures ':' !in a ==> ':' !in ToLower(lower, a)
  {
    assert lower(':') == ':';
  }

  /** "Section::Key" stands for the key of that section, both in lower case, and "Key" for that of
      the default section; what follows a second "::" is ignored. */
  lemma Addresses(section: string, key: string, more: string, lower: Lower) returns (s: string, k: string)
    requires ColonsStay(lower) && ':' !in section && ':' !in key
    ensures Lowered(lower, section, s) && Lowered(lower, key, k)
    ensures Address(section + "::" + key, lower) == (s, k)
    ensures Address(key, lower) == (DEFAULT, k)
    ensures Address(section + "::" + (key + "::" + more), lower) == (s, k)
  {
    s, k := ToLower(lower, section), ToLower(lower, key);
    LowersParts(lower, section, key);
    LowersParts(lower, key, more);
    LowersParts(lower, section, key + "::" + more);
    CutsAtColons(s, k);
    CutsAtColons(s, k + "::" + ToLower(lower, more));
    CutsAtColons(k, ToLower(lower, more));
    NoColonsToCut(k);
  }

  /** What a line stored is found under the section and the key in any case. */
  lemma StoredIsFound(st: State, st': State, key: string, val: string, section: string, name: string, lower: Lower)
    requires Stores(st, st', key, val) && ColonsStay(lower) && ':' !in section && ':' !in name
    requires Lowered(lower, section, st.section) && Lowered(lower, name, key)
    ensures Lookup(st'.cfg.data, section + "::" + name, lower) == val
    ensures st.section == DEFAULT && name != "" ==> Lookup(st'.cfg.data, name, lower) == val
  {
    var s, k := Addresses(section, name, "", lower);
    assert s == st.section && k == key;
    assert key in SectionOf(st'.cfg.data, st.section);
  }
}
