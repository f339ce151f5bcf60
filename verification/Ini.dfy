/** The INI parser and printer of `core/config/ini.go`, with `ExpandValueEnv` of
    `core/config/config.go`. */
module Ini {
  import opened Text

  // ---- text ----

  /** `unicode.IsSpace`. */
  predicate IsSpace(c: char) {
    || c == ' ' || '\t' <= c <= '\r' || c == '\U{85}' || c == '\U{A0}' || c == '\U{1680}'
    || '\U{2000}' <= c <= '\U{200A}' || c == '\U{2028}' || c == '\U{2029}' || c == '\U{202F}' || c == '\U{205F}' || c == '\U{3000}'
  }

  function TrimLeft(s: string): string { if s != [] && IsSpace(s[0]) then TrimLeft(s[1..]) else s }

  function TrimRight(s: string): string { if s != [] && IsSpace(s[|s| - 1]) then TrimRight(s[..|s| - 1]) else s }

  /** `strings.TrimSpace`. */
  function TrimSpace(s: string): string { TrimRight(TrimLeft(s)) }

  predicate HasPrefix(s: string, c: char) { s != [] && s[0] == c }

  predicate HasSuffix(s: string, c: char) { s != [] && s[|s| - 1] == c }

  /** `bytes.TrimLeft(s, c)`. */
  function DropLeft(s: string, c: char): string { if s != [] && s[0] == c then DropLeft(s[1..], c) else s }

  function DropRight(s: string, c: char): string { if s != [] && s[|s| - 1] == c then DropRight(s[..|s| - 1], c) else s }

  /** The part before the first `c` and the part behind it, if there is one: `SplitN(s, c, 2)`. */
  function Cut(s: string, c: char): (string, Option<string>) {
    if s == [] then ([], None)
    else if s[0] == c then ([], Some(s[1..]))
    else
      var (a, b) := Cut(s[1..], c);
      ([s[0]] + a, b)
  }

  /** A case mapping: one character at a time. */
  type Lower = char -> char

  function ToLower(lower: Lower, s: string): string { seq(|s|, i requires 0 <= i < |s| => lower(s[i])) }

  type Getenv = string -> string

  // ---- ExpandValueEnv ----

  predicate EnvForm(v: string) { |v| >= 3 && v[0] == '$' && v[1] == '{' && v[|v| - 1] == '}' }

  /** The name and the default of a value of the form "${name}" or "${name||default}", read from
      position `i` on. */
  function EnvParts(v: string, i: nat): (string, string)
    requires EnvForm(v) && 2 <= i <= |v|
    decreases |v| - i
  {
    if i == |v| then ("", "")
    else if v[i] == '|' && i + 1 < |v| && v[i + 1] == '|' then
      (v[2..i], v[i + 2..|v| - 1])
    else if v[i] == '}' then (v[2..i], "")
    else EnvParts(v, i + 1)
  }

  function Expanded(v: string, getenv: Getenv): string {
    if !EnvForm(v) then v
    else
      var (name, default) := EnvParts(v, 2);
      if getenv(name) == "" then default else getenv(name)
  }

  method ExpandValueEnv(v: string, getenv: Getenv) returns (r: string)
    ensures r == Expanded(v, getenv)
  {
    if |v| < 3 || v[0] != '$' || v[1] != '{' || v[|v| - 1] != '}' {
      return v;
    }
    var name, default := "", "";
    var i := 2;
    while i < |v|
      invariant 2 <= i <= |v| && name == "" && default == ""
      invariant EnvParts(v, 2) == EnvParts(v, i)
    {
      if v[i] == '|' && i + 1 < |v| && v[i + 1] == '|' {
        name := v[2..i];
        default := v[i + 2..|v| - 1];
        break;
      } else if v[i] == '}' {
        name := v[2..i];
        break;
      }
      i := i + 1;
    }
    r := getenv(name);
    if r == "" {
      r := default;
    }
  }

  /** The scan stops at the first "}" or "||". */
  predicate StopsAt(v: string, i: nat)
    requires i < |v|
  {
    v[i] == '}' || (v[i] == '|' && i + 1 < |v| && v[i + 1] == '|')
  }

  lemma {:induction false} FirstStop(v: string, i: nat, j: nat)
    requires EnvForm(v) && 2 <= i <= j < |v| && StopsAt(v, j) && forall k :: i <= k < j ==> !StopsAt(v, k)
    ensures EnvParts(v, i) == (v[2..j], if v[j] == '}' then "" else v[j + 2..|v| - 1])
    decreases j - i
  {
    if i < j {
      assert !StopsAt(v, i);
      FirstStop(v, i + 1, j);
    } else if v[j] == '|' {
      assert v[j + 1] == '|';
    }
  }

  /** A variable's name: nothing in it, nor its last character before a "|", ends the scan. */
  predicate EnvName(name: string) {
    '}' !in name && forall i :: 0 <= i < |name| - 1 ==> !(name[i] == '|' && name[i + 1] == '|')
  }

  /** `${name||d}` is the variable, or the default when it is empty or not set. */
  lemma ExpandsToDefault(name: string, d: string, getenv: Getenv)
    requires EnvName(name) && !HasSuffix(name, '|')
    ensures Expanded("${" + name + "||" + d + "}", getenv) == if getenv(name) == "" then d else getenv(name)
  {
    var v := "${" + name + "||" + d + "}";
    var j := 2 + |name|;
    assert v[j] == '|' && v[j + 1] == '|' && v[2..j] == name && v[j + 2..|v| - 1] == d;
    forall k | 2 <= k < j
      ensures !StopsAt(v, k)
    {
      assert v[k] == name[k - 2] && (k + 1 < j ==> v[k + 1] == name[k - 1]);
    }
    FirstStop(v, 2, j);
  }

  /** `${name}` is the variable, whatever follows up to a last "}". */
  lemma ExpandsToVariable(name: string, more: string, getenv: Getenv)
    requires EnvName(name) && (more == "" || HasSuffix(more, '}'))
    ensures Expanded("${" + name + "}" + more, getenv) == getenv(name)
  {
    var v := "${" + name + "}" + more;
    var j := 2 + |name|;
    assert v[j] == '}' && v[2..j] == name;
    assert v[|v| - 1] == if more == "" then '}' else more[|more| - 1];
    forall k | 2 <= k < j
      ensures !StopsAt(v, k)
    {
      assert v[k] == name[k - 2] && (k + 1 < j ==> v[k + 1] == name[k - 1]);
    }
    FirstStop(v, 2, j);
  }

  lemma {:induction false} SomeStop(v: string, i: nat) returns (j: nat)
    requires EnvForm(v) && 2 <= i < |v|
    ensures i <= j < |v| && StopsAt(v, j) && forall k :: i <= k < j ==> !StopsAt(v, k)
    decreases |v| - i
  {
    if StopsAt(v, i) {
      j := i;
    } else {
      j := SomeStop(v, i + 1);
    }
  }

  /** There is no third form. */
  lemma EnvForms(v: string) returns (name: string, rest: string)
    requires EnvForm(v)
    ensures v == "${" + name + rest && EnvName(name)
    ensures HasPrefix(rest, '}') || ("||" <= rest && !HasSuffix(name, '|') && HasSuffix(rest[2..], '}'))
  {
    var j := SomeStop(v, 2);
    name, rest := v[2..j], v[j..];
    assert forall i :: 0 <= i < |name| ==> name[i] == v[i + 2] && !StopsAt(v, i + 2);
    assert v == "${" + name + rest;
    if v[j] != '}' {
      assert rest[..2] == "||";
      assert rest[2..][|rest[2..]| - 1] == v[|v| - 1];
    }
  }

  // ---- parsing ----

  type Data = map<string, map<string, string>>

  datatype Config = Config(data: Data, sectionComment: map<string, string>, keyComment: map<string, string>)

  /** The variables of the parse loop. */
  datatype State = State(section: string, comment: string, cfg: Config)

  datatype Parse = Going(st: State) | BadLine(line: string) | BadInclude(file: string)

  /** What the parser asks the outside for: environment variables, and the parsed container of an
      included file, None when it cannot be read or parsed. */
  datatype World = World(getenv: Getenv, load: string -> Option<Config>)

  const DEFAULT := "default"

  const BOM: char := '\U{FEFF}'

  function SectionOf(data: Data, section: string): map<string, string> { if section in data then data[section] else map[] }

  /** `strings.Fields`. */
  function Words(s: string): seq<string>
    decreases |s|
  {
    var t := TrimLeft(s);
    TrimLeftShortens(s);
    if t == [] then []
    else
      var w := Word(t);
      [w] + Words(t[|w|..])
  }

  function Word(s: string): (w: string)
    ensures |w| <= |s| && (s != [] && !IsSpace(s[0]) ==> w != [])
  {
    if s == [] || IsSpace(s[0]) then [] else [s[0]] + Word(s[1..])
  }

  lemma TrimLeftShortens(s: string)
    ensures |TrimLeft(s)| <= |s| && (TrimLeft(s) != [] ==> !IsSpace(TrimLeft(s)[0]))
  {
  }

  /** The file named by a line `include file`; the line has no "=". */
  function IncludedFile(key: string): Option<string> {
    if "include" <= key && |Words(key)| == 2 && Words(key)[0] == "include" then
      Some(DropRight(DropLeft(Words(key)[1], '"'), '"'))
    else None
  }

  function Unquoted(v: string): string { if HasPrefix(v, '"') then DropRight(DropLeft(v, '"'), '"') else v }

  function AddComment(st: State, line: string): State {
    st.(comment := st.comment + (if st.comment != "" then "\n" else "") + line)
  }

  /** A section line makes its section current and present. */
  function EnterSection(st: State, section: string): State {
    var sc := if st.comment != "" then st.cfg.sectionComment[section := st.comment] else st.cfg.sectionComment;
    State(section, "", st.cfg.(data := st.cfg.data[section := SectionOf(st.cfg.data, section)], sectionComment := sc))
  }

  function StoreValue(st: State, key: string, val: string): State {
    var kc := if st.comment != "" then st.cfg.keyComment[st.section + "." + key := st.comment] else st.cfg.keyComment;
    var section := SectionOf(st.cfg.data, st.section)[key := val];
    State(st.section, "", st.cfg.(data := st.cfg.data[st.section := section], keyComment := kc))
  }

  /** The data of an included file goes over what is there, key by key. */
  function MergedData(data: Data, other: Data): Data {
    map sec | sec in data.Keys + other.Keys :: SectionOf(data, sec) + SectionOf(other, sec)
  }

  /** An included file: the current section becomes present, data and comments are merged. */
  function IncludeFile(st: State, other: Config): State {
    var data := st.cfg.data[st.section := SectionOf(st.cfg.data, st.section)];
    st.(cfg := Config(MergedData(data, other.data), st.cfg.sectionComment + other.sectionComment, st.cfg.keyComment + other.keyComment))
  }

  /** One line of the file. */
  function ParseLine(st: State, raw: string, lower: Lower, world: World): Parse {
    var line := TrimSpace(raw);
    if line == [] then Going(st)
    else if HasPrefix(line, '#') then Going(AddComment(st, DropLeft(line, '#')))
    else if HasPrefix(line, ';') then Going(AddComment(st, DropLeft(line, ';')))
    else if |line| >= 2 && HasPrefix(line, '[') && HasSuffix(line, ']') then
      Going(EnterSection(st, ToLower(lower, line[1..|line| - 1])))
    else
      var (k, v) := Cut(line, '=');
      var key := ToLower(lower, TrimSpace(k));
      if v.None? then
        match IncludedFile(key)
        case None => BadLine(line)
        case Some(file) => (match world.load(file) case None => BadInclude(file) case Some(other) => Going(IncludeFile(st, other)))
      else Going(StoreValue(st, key, Expanded(Unquoted(TrimSpace(v.value)), world.getenv)))
  }

  function ParseLines(st: State, lines: seq<string>, lower: Lower, world: World): Parse
    decreases |lines|
  {
    if lines == [] then Going(st)
    else match ParseLine(st, lines[0], lower, world)
      case Going(st') => ParseLines(st', lines[1..], lower, world)
      case r => r
  }

  function Run(st: State, text: string, lower: Lower, world: World): Parse {
    ParseLines(st, Split(text, '\n'), lower, world)
  }

  function SkipBom(text: string): string { if HasPrefix(text, BOM) then text[1..] else text }

  const START := State(DEFAULT, "", Config(map[], map[], map[]))

  /** The loops that copy an included file's sections, in any order. */
  method MergeData(data: Data, other: Data) returns (r: Data)
    ensures r == MergedData(data, other)
  {
    r := data;
    var todo := other.Keys;
    NoneMerged(data, other);
    while todo != {}
      invariant todo <= other.Keys && MergedBut(data, other, todo, r)
    {
      var sec :| sec in todo;
      MergeStep(data, other, todo, r, sec);
      r := r[sec := SectionOf(r, sec) + other[sec]];
      todo := todo - {sec};
    }
    AllMerged(data, other, r);
  }

  lemma NoneMerged(data: Data, other: Data)
    ensures MergedBut(data, other, other.Keys, data)
  {
    forall sec | sec in data && sec !in other
      ensures data[sec] == SectionOf(data, sec) + SectionOf(other, sec)
    {
    }
  }

  lemma AllMerged(data: Data, other: Data, r: Data)
    requires MergedBut(data, other, {}, r)
    ensures r == MergedData(data, other)
  {
    assert r.Keys == MergedData(data, other).Keys;
  }

  /** All sections but those in `todo` are merged. */
  ghost predicate MergedBut(data: Data, other: Data, todo: set<string>, r: Data) {
    && r.Keys == data.Keys + (other.Keys - todo)
    && forall sec <- r :: r[sec] == if sec in todo then data[sec] else SectionOf(data, sec) + SectionOf(other, sec)
  }

  lemma MergeStep(data: Data, other: Data, todo: set<string>, r: Data, sec: string)
    requires MergedBut(data, other, todo, r) && sec in todo && todo <= other.Keys
    ensures MergedBut(data, other, todo - {sec}, r[sec := SectionOf(r, sec) + other[sec]])
  {
    assert SectionOf(r, sec) == SectionOf(data, sec);
  }

  /** The body of the parse loop. */
  method ParseOne(st: State, raw: string, lower: Lower, world: World) returns (r: Parse)
    ensures r == ParseLine(st, raw, lower, world)
  {
    var line := TrimSpace(raw);
    if line == [] {
      return Going(st);
    }
    if HasPrefix(line, '#') || HasPrefix(line, ';') {
      return Going(AddComment(st, DropLeft(line, line[0])));
    }
    if |line| >= 2 && HasPrefix(line, '[') && HasSuffix(line, ']') {
      return Going(EnterSection(st, ToLower(lower, line[1..|line| - 1])));
    }
    var (k, v) := Cut(line, '=');
    var key := ToLower(lower, TrimSpace(k));
    if v.None? {
      var file := IncludedFile(key);
      if file.None? {
        return BadLine(line);
      }
      var other := world.load(file.value);
      if other.None? {
        return BadInclude(file.value);
      }
      var data := MergeData(st.cfg.data[st.section := SectionOf(st.cfg.data, st.section)], other.value.data);
      return Going(st.(cfg := Config(data, st.cfg.sectionComment + other.value.sectionComment, st.cfg.keyComment + other.value.keyComment)));
    }
    var val := ExpandValueEnv(Unquoted(TrimSpace(v.value)), world.getenv);
    return Going(StoreValue(st, key, val));
  }

  /** After an include, a key has the included file's value if that has one, its old one otherwise. */
  lemma IncludedWins(st: State, other: Config, section: string, key: string)
    ensures var was, incl := SectionOf(st.cfg.data, section), SectionOf(other.data, section);
      var merged := SectionOf(IncludeFile(st, other).cfg.data, section);
      && (key in merged <==> key in was || key in incl)
      && (key in incl ==> merged[key] == incl[key])
      && (key in was && key !in incl ==> merged[key] == was[key])
  {
    var data := st.cfg.data[st.section := SectionOf(st.cfg.data, st.section)];
    assert SectionOf(data, section) == SectionOf(st.cfg.data, section);
    assert SectionOf(MergedData(data, other.data), section) == SectionOf(data, section) + SectionOf(other.data, section);
  }

  /** `parseData`. */
  method ParseData(text: string, lower: Lower, world: World) returns (r: Parse)
    ensures r == Run(START, SkipBom(text), lower, world)
  {
    var lines := Split(if HasPrefix(text, BOM) then text[1..] else text, '\n');
    var st := START;
    for i := 0 to |lines|
      invariant ParseLines(START, lines, lower, world) == ParseLines(st, lines[i..], lower, world)
    {
      assert lines[i..][0] == lines[i] && lines[i..][1..] == lines[i + 1..];
      r := ParseOne(st, lines[i], lower, world);
      if !r.Going? {
        return;
      }
      st := r.st;
    }
    assert lines[|lines|..] == [];
    r := Going(st);
  }

  lemma {:induction false} SplitConcat(a: string, b: string, sep: char)
    ensures Split(a + [sep] + b, sep) == Split(a, sep) + Split(b, sep)
  {
    if a == [] {
      assert a + [sep] + b == [sep] + b;
      assert ([sep] + b)[1..] == b;
    } else {
      assert (a + [sep] + b)[1..] == a[1..] + [sep] + b;
      SplitConcat(a[1..], b, sep);
    }
  }

  lemma {:induction false} ParseLinesConcat(st: State, a: seq<string>, b: seq<string>, lower: Lower, world: World)
    ensures ParseLines(st, a + b, lower, world) ==
            match ParseLines(st, a, lower, world) case Going(st') => ParseLines(st', b, lower, world) case r => r
    decreases |a|
  {
    if a == [] {
      assert a + b == b;
    } else {
      assert (a + b)[1..] == a[1..] + b;
      match ParseLine(st, a[0], lower, world) {
        case Going(st') => ParseLinesConcat(st', a[1..], b, lower, world);
        case _ =>
      }
    }
  }

  /** A text can be parsed piece by piece, cut at any line break. */
  lemma RunConcat(st: State, a: string, b: string, lower: Lower, world: World)
    ensures Run(st, a + "\n" + b, lower, world) ==
            match Run(st, a, lower, world) case Going(st') => Run(st', b, lower, world) case r => r
  {
    SplitConcat(a, b, '\n');
    ParseLinesConcat(st, Split(a, '\n'), Split(b, '\n'), lower, world);
  }

  lemma RunOneLine(st: State, line: string, lower: Lower, world: World)
    requires '\n' !in line
    ensures Run(st, line, lower, world) == ParseLine(st, line, lower, world)
  {
    SplitNone(line, '\n');
    assert [line][1..] == [];
    match ParseLine(st, line, lower, world) {
      case Going(st') => assert ParseLines(st', [], lower, world) == Going(st');
      case _ =>
    }
  }

  // ---- printing ----

  datatype Entry = Entry(key: string, val: string)

  /** `strings.Replace(comment, "\n", "\n#", -1)`. */
  function HashLines(comment: string): string {
    if comment == [] then [] else (if comment[0] == '\n' then "\n#" else [comment[0]]) + HashLines(comment[1..])
  }

  /** `getCommentStr` for a comment that is there. */
  function CommentText(comment: string): string {
    if TrimSpace(comment) == [] then "#" else "#" + HashLines(comment)
  }

  function CommentBlock(comments: map<string, string>, id: string): string {
    if id in comments then CommentText(comments[id]) + "\n" else ""
  }

  function KeyComment(cfg: Config, section: string, key: string): string {
    if key == [] then CommentBlock(cfg.sectionComment, section) else CommentBlock(cfg.keyComment, section + "." + key)
  }

  /** One key of a section, with its comment; the key " " is left out. */
  function EntryText(cfg: Config, section: string, e: Entry): string {
    if e.key == " " then "" else KeyComment(cfg, section, e.key) + (e.key + "=" + e.val + "\n")
  }

  function EntriesText(cfg: Config, section: string, es: seq<Entry>): string {
    if es == [] then "" else EntryText(cfg, section, es[0]) + EntriesText(cfg, section, es[1..])
  }

  /** A section and the order its keys are visited in. */
  datatype Section = Section(name: string, entries: seq<Entry>)

  function SectionText(cfg: Config, s: Section): string {
    CommentBlock(cfg.sectionComment, s.name) + ("[" + s.name + "]\n") + (EntriesText(cfg, s.name, s.entries) + "\n")
  }

  function SectionsText(cfg: Config, ss: seq<Section>): string {
    if ss == [] then "" else SectionText(cfg, ss[0]) + SectionsText(cfg, ss[1..])
  }

  /** The whole file, for one order of the map iterations. */
  function FileText(cfg: Config, dflt: Option<seq<Entry>>, named: seq<Section>): string {
    (if dflt.Some? then EntriesText(cfg, DEFAULT, dflt.value) + "\n" else "") + SectionsText(cfg, named)
  }

  // ---- normal form ----

  ghost predicate Trimmed(s: string) { s == [] || (!IsSpace(s[0]) && !IsSpace(s[|s| - 1])) }

  ghost predicate NormalKey(k: string, lower: Lower) {
    && Trimmed(k) && ToLower(lower, k) == k && '\n' !in k && '=' !in k
    && !HasPrefix(k, '#') && !HasPrefix(k, ';') && !HasPrefix(k, '[') && !HasPrefix(k, BOM)
  }

  ghost predicate NormalValue(v: string) { Trimmed(v) && '\n' !in v && !HasPrefix(v, '"') && !EnvForm(v) }

  ghost predicate NormalName(n: string, lower: Lower) { ToLower(lower, n) == n && '\n' !in n }

  ghost predicate NormalEntries(es: seq<Entry>, lower: Lower) {
    forall e <- es :: NormalKey(e.key, lower) && NormalValue(e.val)
  }

  // ---- reading one printed line ----

  lemma TrimmedStays(s: string)
    requires Trimmed(s)
    ensures TrimSpace(s) == s
  {
  }

  lemma {:induction false} CutAtKey(k: string, v: string)
    requires '=' !in k
    ensures Cut(k + "=" + v, '=') == (k, Some(v))
  {
    var s := k + "=" + v;
    if k == [] {
      assert s == ['='] + v;
      assert s[1..] == v;
    } else {
      assert s[1..] == k[1..] + "=" + v;
      CutAtKey(k[1..], v);
      assert k == [k[0]] + k[1..];
    }
  }

  lemma EntryLine(st: State, e: Entry, lower: Lower, world: World)
    requires NormalKey(e.key, lower) && NormalValue(e.val)
    ensures ParseLine(st, e.key + "=" + e.val, lower, world) == Going(StoreValue(st, e.key, e.val))
  {
    var line := e.key + "=" + e.val;
    assert line[0] == if e.key == [] then '=' else e.key[0];
    assert line[|line| - 1] == if e.val == [] then '=' else e.val[|e.val| - 1];
    TrimmedStays(line);
    TrimmedStays(e.key);
    TrimmedStays(e.val);
    CutAtKey(e.key, e.val);
  }

  lemma SectionLine(st: State, name: string, lower: Lower, world: World)
    requires NormalName(name, lower)
    ensures ParseLine(st, "[" + name + "]", lower, world) == Going(EnterSection(st, name))
  {
    var line := "[" + name + "]";
    assert line[0] == '[' && line[|line| - 1] == ']';
    TrimmedStays(line);
    assert line[1..|line| - 1] == name;
  }

  /** A line that starts with "#" changes nothing but the pending comment. */
  lemma CommentLine(st: State, raw: string, lower: Lower, world: World)
    requires HasPrefix(raw, '#')
    ensures var r := ParseLine(st, raw, lower, world);
            r.Going? && r.st.section == st.section && r.st.cfg == st.cfg
  {
    assert TrimLeft(raw) == raw;
    KeepsFirst(raw);
  }

  lemma {:induction false} KeepsFirst(s: string)
    requires s != [] && !IsSpace(s[0])
    ensures TrimRight(s) != [] && TrimRight(s)[0] == s[0]
  {
    if IsSpace(s[|s| - 1]) {
      KeepsFirst(s[..|s| - 1]);
    }
  }

  ghost predicate AllHashed(lines: seq<string>) { forall i :: 0 <= i < |lines| ==> HasPrefix(lines[i], '#') }

  lemma {:induction false} CommentLines(st: State, lines: seq<string>, lower: Lower, world: World)
    requires AllHashed(lines)
    ensures var r := ParseLines(st, lines, lower, world);
            r.Going? && r.st.section == st.section && r.st.cfg == st.cfg
    decreases |lines|
  {
    if lines != [] {
      CommentLine(st, lines[0], lower, world);
      CommentLines(ParseLine(st, lines[0], lower, world).st, lines[1..], lower, world);
    }
  }

  lemma SplitChar(c: char, rest: string, sep: char)
    ensures Split([c] + rest, sep) ==
            if c == sep then [[]] + Split(rest, sep) else [[c] + Split(rest, sep)[0]] + Split(rest, sep)[1..]
  {
    assert ([c] + rest)[1..] == rest;
  }

  lemma HashSplit(rest: string)
    ensures Split("#" + rest, '\n')[1..] == Split(rest, '\n')[1..] && HasPrefix(Split("#" + rest, '\n')[0], '#')
  {
    SplitChar('#', rest, '\n');
  }

  lemma HashedTail(pieces: seq<string>, others: seq<string>)
    requires AllHashed(others) && others != [] && pieces != [] && HasPrefix(pieces[0], '#')
    requires pieces[1..] == others[1..] || pieces[1..] == others
    ensures AllHashed(pieces)
  {
    forall i | 0 <= i < |pieces|
      ensures HasPrefix(pieces[i], '#')
    {
      if i > 0 {
        assert pieces[i] == pieces[1..][i - 1];
      }
    }
  }

  /** However a comment is broken into lines, each printed line starts with "#". */
  lemma {:induction false} HashedLines(comment: string)
    ensures AllHashed(Split("#" + HashLines(comment), '\n'))
  {
    HashSplit(HashLines(comment));
    if comment == [] {
      assert Split("", '\n') == [[]];
    } else {
      var rest := HashLines(comment[1..]);
      HashedLines(comment[1..]);
      HashSplit(rest);
      if comment[0] == '\n' {
        assert HashLines(comment) == ['\n'] + ("#" + rest);
        SplitChar('\n', "#" + rest, '\n');
      } else {
        SplitChar(comment[0], rest, '\n');
      }
      HashedTail(Split("#" + HashLines(comment), '\n'), Split("#" + rest, '\n'));
    }
  }

  lemma CommentTextLines(comment: string)
    ensures AllHashed(Split(CommentText(comment), '\n'))
  {
    if TrimSpace(comment) == [] {
      SplitNone("#", '\n');
    } else {
      HashedLines(comment);
    }
  }

  // ---- reading back what was printed ----

  /** `st'` is `st` as far as the data goes. */
  ghost predicate SameData(st: State, st': State) { st'.section == st.section && st'.cfg.data == st.cfg.data }

  lemma ReadComment(st: State, comments: map<string, string>, id: string, rest: string, lower: Lower, world: World) returns (st': State)
    ensures Run(st, CommentBlock(comments, id) + rest, lower, world) == Run(st', rest, lower, world) && SameData(st, st')
  {
    if id in comments {
      var c := CommentText(comments[id]);
      CommentTextLines(comments[id]);
      CommentLines(st, Split(c, '\n'), lower, world);
      RunConcat(st, c, rest, lower, world);
      st' := Run(st, c, lower, world).st;
    } else {
      assert CommentBlock(comments, id) + rest == rest;
      st' := st;
    }
  }

  ghost function Put(data: Data, section: string, es: seq<Entry>): Data
    decreases |es|
  {
    if es == [] then data
    else Put(data[section := SectionOf(data, section)[es[0].key := es[0].val]], section, es[1..])
  }

  lemma EntryTextParts(cfg: Config, section: string, e: Entry, rest: string, lower: Lower)
    requires NormalKey(e.key, lower)
    ensures EntryText(cfg, section, e) + rest == KeyComment(cfg, section, e.key) + (e.key + "=" + e.val + "\n" + rest)
  {
    Associates(KeyComment(cfg, section, e.key), e.key + "=" + e.val + "\n", rest);
  }

  lemma ReadEntry(st: State, cfg: Config, e: Entry, rest: string, lower: Lower, world: World) returns (st': State)
    requires NormalKey(e.key, lower) && NormalValue(e.val)
    ensures Run(st, EntryText(cfg, st.section, e) + rest, lower, world) == Run(st', rest, lower, world)
    ensures st'.section == st.section && st'.cfg.data == Put(st.cfg.data, st.section, [e])
  {
    var line := e.key + "=" + e.val;
    EntryTextParts(cfg, st.section, e, rest, lower);
    var st1;
    if e.key == [] {
      st1 := ReadComment(st, cfg.sectionComment, st.section, line + "\n" + rest, lower, world);
    } else {
      st1 := ReadComment(st, cfg.keyComment, st.section + "." + e.key, line + "\n" + rest, lower, world);
    }
    RunConcat(st1, line, rest, lower, world);
    RunOneLine(st1, line, lower, world);
    EntryLine(st1, e, lower, world);
    st' := StoreValue(st1, e.key, e.val);
    assert [e][1..] == [];
  }

  lemma {:induction false} ReadEntries(st: State, cfg: Config, es: seq<Entry>, rest: string, lower: Lower, world: World) returns (st': State)
    requires NormalEntries(es, lower)
    ensures Run(st, EntriesText(cfg, st.section, es) + rest, lower, world) == Run(st', rest, lower, world)
    ensures st'.section == st.section && st'.cfg.data == Put(st.cfg.data, st.section, es)
    decreases |es|
  {
    if es == [] {
      assert EntriesText(cfg, st.section, es) + rest == rest;
      st' := st;
    } else {
      var more := EntriesText(cfg, st.section, es[1..]) + rest;
      assert EntriesText(cfg, st.section, es) + rest == EntryText(cfg, st.section, es[0]) + more;
      var st1 := ReadEntry(st, cfg, es[0], more, lower, world);
      assert [es[0]][1..] == [];
      st' := ReadEntries(st1, cfg, es[1..], rest, lower, world);
    }
  }

  lemma ReadBlankLine(st: State, rest: string, lower: Lower, world: World)
    ensures Run(st, "\n" + rest, lower, world) == Run(st, rest, lower, world)
  {
    assert "\n" + rest == "" + "\n" + rest;
    RunConcat(st, "", rest, lower, world);
    RunOneLine(st, "", lower, world);
  }

  /** The entries of a section and the blank line behind them. */
  lemma ReadBlock(st: State, cfg: Config, es: seq<Entry>, rest: string, lower: Lower, world: World) returns (st': State)
    requires NormalEntries(es, lower)
    ensures Run(st, EntriesText(cfg, st.section, es) + "\n" + rest, lower, world) == Run(st', rest, lower, world)
    ensures st'.section == st.section && st'.cfg.data == Put(st.cfg.data, st.section, es)
  {
    st' := ReadEntries(st, cfg, es, "\n" + rest, lower, world);
    assert EntriesText(cfg, st.section, es) + "\n" + rest == EntriesText(cfg, st.section, es) + ("\n" + rest);
    ReadBlankLine(st', rest, lower, world);
  }

  lemma Regroup(a: string, b: string, c: string, d: string, e: string, rest: string)
    ensures a + (b + c) + (d + e) + rest == a + (b + c + (d + e + rest))
  {
  }

  lemma SectionTextParts(cfg: Config, s: Section, rest: string)
    ensures SectionText(cfg, s) + rest ==
            CommentBlock(cfg.sectionComment, s.name) + ("[" + s.name + "]" + "\n" + (EntriesText(cfg, s.name, s.entries) + "\n" + rest))
  {
    var head := "[" + s.name + "]";
    assert "[" + s.name + "]\n" == head + "\n";
    Regroup(CommentBlock(cfg.sectionComment, s.name), head, "\n", EntriesText(cfg, s.name, s.entries), "\n", rest);
  }

  lemma ReadSection(st: State, cfg: Config, s: Section, rest: string, lower: Lower, world: World) returns (st': State)
    requires NormalName(s.name, lower) && NormalEntries(s.entries, lower)
    ensures Run(st, SectionText(cfg, s) + rest, lower, world) == Run(st', rest, lower, world)
    ensures st'.cfg.data == Put(st.cfg.data[s.name := SectionOf(st.cfg.data, s.name)], s.name, s.entries)
  {
    var head := "[" + s.name + "]";
    var body := EntriesText(cfg, s.name, s.entries) + "\n" + rest;
    var st1 := ReadComment(st, cfg.sectionComment, s.name, head + "\n" + body, lower, world);
    SectionTextParts(cfg, s, rest);
    RunConcat(st1, head, body, lower, world);
    RunOneLine(st1, head, lower, world);
    SectionLine(st1, s.name, lower, world);
    st' := ReadBlock(EnterSection(st1, s.name), cfg, s.entries, rest, lower, world);
  }

  ghost function Fill(m: map<string, string>, es: seq<Entry>): map<string, string>
    decreases |es|
  {
    if es == [] then m else Fill(m[es[0].key := es[0].val], es[1..])
  }

  lemma {:induction false} PutFills(data: Data, section: string, es: seq<Entry>)
    ensures Put(data, section, es) ==
            if es == [] then data else data[section := Fill(SectionOf(data, section), es)]
    decreases |es|
  {
    if es != [] {
      PutFills(data[section := SectionOf(data, section)[es[0].key := es[0].val]], section, es[1..]);
    }
  }

  ghost function FillAll(data: Data, ss: seq<Section>): Data
    decreases |ss|
  {
    if ss == [] then data else FillAll(data[ss[0].name := Fill(SectionOf(data, ss[0].name), ss[0].entries)], ss[1..])
  }

  lemma SectionFilled(data: Data, s: Section)
    ensures Put(data[s.name := SectionOf(data, s.name)], s.name, s.entries) ==
            data[s.name := Fill(SectionOf(data, s.name), s.entries)]
  {
    PutFills(data[s.name := SectionOf(data, s.name)], s.name, s.entries);
  }

  ghost predicate NormalSections(ss: seq<Section>, lower: Lower) {
    forall s <- ss :: NormalName(s.name, lower) && NormalEntries(s.entries, lower)
  }

  lemma {:induction false} ReadSections(st: State, cfg: Config, ss: seq<Section>, lower: Lower, world: World) returns (st': State)
    requires NormalSections(ss, lower)
    ensures Run(st, SectionsText(cfg, ss), lower, world) == Going(st') && st'.cfg.data == FillAll(st.cfg.data, ss)
    decreases |ss|
  {
    if ss == [] {
      RunOneLine(st, "", lower, world);
      st' := st;
    } else {
      var s, more := ss[0], ss[1..];
      assert s in ss && forall t <- more :: t in ss;
      var st1 := ReadSection(st, cfg, s, SectionsText(cfg, more), lower, world);
      SectionFilled(st.cfg.data, s);
      st' := ReadSections(st1, cfg, more, lower, world);
    }
  }

  // ---- the enumeration a printer sees ----

  /** The entries list a map, in any order. */
  ghost predicate Lists(es: seq<Entry>, m: map<string, string>) {
    && (forall e <- es :: e.key in m && m[e.key] == e.val)
    && (forall k <- m :: exists e :: e in es && e.key == k)
  }

  ghost predicate ListsAll(dflt: Option<seq<Entry>>, named: seq<Section>, data: Data) {
    && (DEFAULT in data <==> dflt.Some?) && (dflt.Some? ==> Lists(dflt.value, data[DEFAULT]))
    && (forall s <- named :: s.name != DEFAULT && s.name in data && Lists(s.entries, data[s.name]))
    && (forall i, j :: 0 <= i < j < |named| ==> named[i].name != named[j].name)
    && (forall n <- data :: n == DEFAULT || exists s :: s in named && s.name == n)
  }

  lemma {:induction false} FillKeys(m: map<string, string>, es: seq<Entry>, target: map<string, string>)
    requires forall e <- es :: e.key in target && target[e.key] == e.val
    ensures forall k :: k in Fill(m, es) <==> k in m || exists e :: e in es && e.key == k
    ensures forall k <- Fill(m, es) :: Fill(m, es)[k] == if exists e :: e in es && e.key == k then target[k] else m[k]
    decreases |es|
  {
    if es != [] {
      FillKeys(m[es[0].key := es[0].val], es[1..], target);
      assert forall e :: e in es <==> e == es[0] || e in es[1..];
    }
  }

  lemma FillLists(es: seq<Entry>, m: map<string, string>)
    requires Lists(es, m)
    ensures Fill(map[], es) == m
  {
    FillKeys(map[], es, m);
    assert forall k :: k in Fill(map[], es) <==> k in m;
  }

  lemma {:induction false} FillAllSections(data: Data, ss: seq<Section>, target: Data)
    requires forall s <- ss :: s.name !in data && s.name in target && Lists(s.entries, target[s.name])
    requires forall i, j :: 0 <= i < j < |ss| ==> ss[i].name != ss[j].name
    ensures forall n :: n in FillAll(data, ss) <==> n in data || exists s :: s in ss && s.name == n
    ensures forall n <- FillAll(data, ss) :: FillAll(data, ss)[n] == if n in data then data[n] else target[n]
    decreases |ss|
  {
    if ss != [] {
      var s := ss[0];
      assert s in ss;
      FillLists(s.entries, target[s.name]);
      var data1 := data[s.name := target[s.name]];
      assert data1 == data[s.name := Fill(SectionOf(data, s.name), s.entries)];
      forall t | t in ss[1..]
        ensures t.name !in data1
      {
        var i :| 0 <= i < |ss[1..]| && ss[1..][i] == t;
        assert ss[i + 1] == t && t in ss;
      }
      FillAllSections(data1, ss[1..], target);
      assert forall t :: t in ss <==> t == s || t in ss[1..];
    }
  }

  /** The data a reparse can give: an empty default section leaves no trace in the file. */
  function WithoutEmptyDefault(data: Data): Data {
    if DEFAULT in data && data[DEFAULT] == map[] then data - {DEFAULT} else data
  }

  lemma FirstCharacter(cfg: Config, dflt: Option<seq<Entry>>, named: seq<Section>, lower: Lower)
    requires dflt.Some? ==> NormalEntries(dflt.value, lower)
    ensures SkipBom(FileText(cfg, dflt, named)) == FileText(cfg, dflt, named)
  {
    var text := FileText(cfg, dflt, named);
    if dflt.Some? && dflt.value != [] {
      EntryStart(cfg, DEFAULT, dflt.value[0], lower);
      assert text[0] == EntryText(cfg, DEFAULT, dflt.value[0])[0];
    } else if dflt.Some? {
      assert text[0] == '\n';
    } else if named != [] {
      assert text[0] == SectionText(cfg, named[0])[0];
    }
  }

  lemma EntryStart(cfg: Config, section: string, e: Entry, lower: Lower)
    requires NormalKey(e.key, lower)
    ensures EntryText(cfg, section, e) != [] && EntryText(cfg, section, e)[0] != BOM
  {
    var comment := KeyComment(cfg, section, e.key);
    assert EntryText(cfg, section, e)[0] == if comment != [] then comment[0] else if e.key != [] then e.key[0] else '=';
  }

  /** The default section on its own, unless it is missing or empty. */
  ghost function DefaultOnly(data: Data): Data {
    if DEFAULT in data && data[DEFAULT] != map[] then map[DEFAULT := data[DEFAULT]] else map[]
  }

  lemma ReadDefault(cfg: Config, dflt: Option<seq<Entry>>, rest: string, lower: Lower, world: World) returns (st: State)
    requires (DEFAULT in cfg.data <==> dflt.Some?) && (dflt.Some? ==> Lists(dflt.value, cfg.data[DEFAULT]) && NormalEntries(dflt.value, lower))
    ensures Run(START, (if dflt.Some? then EntriesText(cfg, DEFAULT, dflt.value) + "\n" else "") + rest, lower, world) ==
            Run(st, rest, lower, world)
    ensures st.cfg.data == DefaultOnly(cfg.data)
  {
    if dflt.Some? {
      var es := dflt.value;
      st := ReadBlock(START, cfg, es, rest, lower, world);
      PutFills(map[], DEFAULT, es);
      FillLists(es, cfg.data[DEFAULT]);
      assert es != [] ==> es[0].key in cfg.data[DEFAULT];
    } else {
      st := START;
      assert "" + rest == rest;
    }
  }

  lemma NamedSection(dflt: Option<seq<Entry>>, named: seq<Section>, data: Data, n: string)
    requires ListsAll(dflt, named, data) && n != DEFAULT
    ensures n in data <==> exists s :: s in named && s.name == n
  {
  }

  lemma AssembledAt(dflt: Option<seq<Entry>>, named: seq<Section>, data: Data, n: string)
    requires ListsAll(dflt, named, data)
    ensures var r, w := FillAll(DefaultOnly(data), named), WithoutEmptyDefault(data);
            if n in w then n in r && r[n] == w[n] else n !in r
  {
    var d := DefaultOnly(data);
    FillAllSections(d, named, data);
    assert n in FillAll(d, named) <==> n in d || exists s :: s in named && s.name == n;
    if n != DEFAULT {
      NamedSection(dflt, named, data, n);
    }
  }

  lemma DataAssembled(dflt: Option<seq<Entry>>, named: seq<Section>, data: Data)
    requires ListsAll(dflt, named, data)
    ensures FillAll(DefaultOnly(data), named) == WithoutEmptyDefault(data)
  {
    var r, w := FillAll(DefaultOnly(data), named), WithoutEmptyDefault(data);
    forall n
      ensures if n in w then n in r && r[n] == w[n] else n !in r
    {
      AssembledAt(dflt, named, data, n);
    }
  }

  /** Printing a container in normal form, in any order of its keys and sections and with any
      comments, and parsing the file again gives the same data, except that an empty default
      section is not remembered. */
  lemma PrintedReadsBack(cfg: Config, dflt: Option<seq<Entry>>, named: seq<Section>, lower: Lower, world: World) returns (st: State)
    requires ListsAll(dflt, named, cfg.data)
    requires (dflt.Some? ==> NormalEntries(dflt.value, lower)) && NormalSections(named, lower)
    ensures Run(START, SkipBom(FileText(cfg, dflt, named)), lower, world) == Going(st)
    ensures st.cfg.data == WithoutEmptyDefault(cfg.data)
    ensures st.cfg.data == cfg.data <==> !(DEFAULT in cfg.data && cfg.data[DEFAULT] == map[])
  {
    FirstCharacter(cfg, dflt, named, lower);
    var st1 := ReadDefault(cfg, dflt, SectionsText(cfg, named), lower, world);
    st := ReadSections(st1, cfg, named, lower, world);
    DataAssembled(dflt, named, cfg.data);
  }

  // ---- the container ----

  /** What stands before the first "::", and what stands behind it. */
  function CutColons(s: string): (string, Option<string>) {
    if |s| < 2 then (s, None)
    else if s[0] == ':' && s[1] == ':' then ([], Some(s[2..]))
    else
      var (a, b) := CutColons(s[1..]);
      ([s[0]] + a, b)
  }

  /** The section and the key a name like "section::key" or "key" stands for. */
  function Address(key: string, lower: Lower): (string, string) {
    var (a, b) := CutColons(ToLower(lower, key));
    match b case None => (DEFAULT, a) case Some(rest) => (a, CutColons(rest).0)
  }

  function Lookup(data: Data, key: string, lower: Lower): string {
    var (section, k) := Address(key, lower);
    if key != "" && section in data && k in data[section] then data[section][k] else ""
  }

  lemma NextEntry(cfg: Config, section: string, es: seq<Entry>)
    requires es != []
    ensures EntriesText(cfg, section, es) == EntryText(cfg, section, es[0]) + EntriesText(cfg, section, es[1..])
  {
  }

  lemma NextSection(cfg: Config, ss: seq<Section>)
    requires ss != []
    ensures SectionsText(cfg, ss) == SectionText(cfg, ss[0]) + SectionsText(cfg, ss[1..])
  {
  }

  class IniConfigContainer {
    var data: Data
    var sectionComment: map<string, string>
    var keyComment: map<string, string>
    const lower: Lower

    ghost function Cfg(): Config reads this { Config(data, sectionComment, keyComment) }

    constructor (cfg: Config, lower: Lower)
      ensures Cfg() == cfg && this.lower == lower
    {
      data, sectionComment, keyComment, this.lower := cfg.data, cfg.sectionComment, cfg.keyComment, lower;
    }

    /** `SaveConfigFile` into an empty file; the arguments are the orders the maps are ranged in. */
    method SaveConfigFile(dflt: Option<seq<Entry>>, named: seq<Section>) returns (buf: string)
      requires ListsAll(dflt, named, data)
      ensures buf == FileText(Cfg(), dflt, named)
    {
      var cfg := Config(data, sectionComment, keyComment);
      buf := "";
      if dflt.Some? {
        buf := SaveEntries(DEFAULT, dflt.value);
        buf := buf + "\n";
      }
      ghost var first := buf;
      for i := 0 to |named|
        invariant buf + SectionsText(cfg, named[i..]) == first + SectionsText(cfg, named)
      {
        NextSection(cfg, named[i..]);
        assert named[i..][1..] == named[i + 1..];
        var block := SaveSection(named[i]);
        Associates(buf, block, SectionsText(cfg, named[i + 1..]));
        buf := buf + block;
      }
      assert named[|named|..] == [];
    }

    method SaveSection(s: Section) returns (buf: string)
      ensures buf == SectionText(Cfg(), s)
    {
      buf := CommentBlock(sectionComment, s.name);
      buf := buf + ("[" + s.name + "]\n");
      var entries := SaveEntries(s.name, s.entries);
      buf := buf + (entries + "\n");
    }

    method SaveEntries(section: string, es: seq<Entry>) returns (buf: string)
      ensures buf == EntriesText(Cfg(), section, es)
    {
      var cfg := Config(data, sectionComment, keyComment);
      buf := "";
      for i := 0 to |es|
        invariant buf + EntriesText(cfg, section, es[i..]) == EntriesText(cfg, section, es)
      {
        NextEntry(cfg, section, es[i..]);
        assert es[i..][1..] == es[i + 1..];
        Associates(buf, EntryText(cfg, section, es[i]), EntriesText(cfg, section, es[i + 1..]));
        if es[i].key != " " {
          buf := buf + (KeyComment(cfg, section, es[i].key) + (es[i].key + "=" + es[i].val + "\n"));
        } else {
          assert buf + "" == buf;
        }
      }
      assert es[|es|..] == [];
    }

    /** `Set`; an empty key is refused. */
    method Set(key: string, val: string) returns (ok: bool)
      modifies this`data
      ensures ok <==> key != ""
      ensures !ok ==> data == old(data)
      ensures ok ==> var (section, k) := Address(key, lower);
                     data == old(data)[section := SectionOf(old(data), section)[k := val]]
      ensures ok ==> Lookup(data, key, lower) == val
    {
      if key == "" {
        return false;
      }
      var (section, k) := Address(key, lower);
      if section !in data {
        data := data[section := map[]];
      }
      data := data[section := data[section][k := val]];
      return true;
    }

    /** `getdata`. */
    method GetData(key: string) returns (val: string)
      ensures val == Lookup(data, key, lower)
    {
      if key == "" {
        return "";
      }
      var (section, k) := Address(key, lower);
      if section in data && k in data[section] {
        return data[section][k];
      }
      return "";
    }
  }
}
