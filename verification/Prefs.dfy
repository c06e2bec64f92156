/** The preferences file: its printer, its line-by-line parser, and when one undoes the other. */
module Prefs {
  import opened Bytes
  import opened Wrappers

  datatype Theme = System | Light | Dark

  datatype Prefs = Prefs(idleTimeoutSecs: Option<u64>, theme: Theme, lastVaultPath: Option<string>, helloEnabled: bool)

  const DEFAULT := Prefs(Some(300), System, None, false)

  // ---------- characters and strings ----------

  /** The Unicode White_Space property, which `trim` goes by. */
  predicate White(c: char) {
    var n := c as int;
    0x09 <= n <= 0x0D || n == 0x20 || n == 0x85 || n == 0xA0 || n == 0x1680 || 0x2000 <= n <= 0x200A
    || n == 0x2028 || n == 0x2029 || n == 0x202F || n == 0x205F || n == 0x3000
  }

  /** Those are 25 characters. */
  lemma WhiteSpaceIs(c: char)
    ensures White(c) <==>
              c in "\t\n\U{B}\U{C}\r \U{85}\U{A0}\U{1680}\U{2000}\U{2001}\U{2002}\U{2003}\U{2004}\U{2005}\U{2006}"
                || c in "\U{2007}\U{2008}\U{2009}\U{200A}\U{2028}\U{2029}\U{202F}\U{205F}\U{3000}"
  {
  }

  function TrimStart(s: string): (r: string)
    ensures |r| <= |s| && r == s[|s| - |r|..]
    ensures r == "" || !White(r[0])
  {
    if s == "" || !White(s[0]) then s else TrimStart(s[1..])
  }

  function TrimEnd(s: string): (r: string)
    ensures r <= s
    ensures r == "" || !White(r[|r| - 1])
  {
    if s == "" || !White(s[|s| - 1]) then s else TrimEnd(s[..|s| - 1])
  }

  function Trim(s: string): string {
    TrimEnd(TrimStart(s))
  }

  /** Nothing to trim at either end. */
  predicate Tight(s: string) {
    s == "" || (!White(s[0]) && !White(s[|s| - 1]))
  }

  lemma TrimIsPart(s: string)
    ensures forall c :: c in Trim(s) ==> c in s
  {
    var t := TrimStart(s);
    var r := TrimEnd(t);
    assert forall c :: c in r ==> c in t;
    assert forall c :: c in t ==> c in s;
  }

  lemma TightTrims(s: string)
    requires Tight(s)
    ensures Trim(s) == s
  {
    hide White;
    assert TrimStart(s) == s;
    assert TrimEnd(s) == s;
  }

  lemma TrimIsTight(s: string)
    ensures Tight(Trim(s))
  {
    hide White;
    var t := TrimStart(s);
    var r := TrimEnd(t);
    if r != "" {
      assert r[0] == t[0];
    }
  }

  lemma TrimIffTight(s: string)
    ensures Trim(s) == s <==> Tight(s)
    ensures Tight(Trim(s))
    ensures forall c :: c in Trim(s) ==> c in s
  {
    hide Trim, Tight;
    TrimIsTight(s);
    TrimIsPart(s);
    if Tight(s) {
      TightTrims(s);
    }
  }

  /** Position of the first `c`, or the length. */
  function IndexOf(s: string, c: char): (i: nat)
    ensures i <= |s| && (i < |s| ==> s[i] == c)
    ensures forall k :: 0 <= k < i ==> s[k] != c
  {
    if s == "" || s[0] == c then 0 else 1 + IndexOf(s[1..], c)
  }

  lemma IndexOfFirst(a: string, c: char, b: string)
    requires c !in a
    ensures IndexOf(a + [c] + b, c) == |a|
  {
    var s := a + [c] + b;
    assert s[|a|] == c;
    assert forall k :: 0 <= k < |a| ==> s[k] == a[k] && a[k] != c;
  }

  function StripCr(line: string): string {
    if line != "" && line[|line| - 1] == '\r' then line[..|line| - 1] else line
  }

  /** `str::lines`: a final line without a newline counts, and only a newline takes a carriage return along. */
  function Lines(s: string): seq<string>
    decreases |s|
  {
    if s == "" then []
    else
      var i := IndexOf(s, '\n');
      if i == |s| then [s] else [StripCr(s[..i])] + Lines(s[i + 1..])
  }

  lemma LinesStep(line: string, rest: string)
    requires '\n' !in line
    ensures Lines(line + "\n" + rest) == [StripCr(line)] + Lines(rest)
  {
    var s := line + "\n" + rest;
    IndexOfFirst(line, '\n', rest);
    assert s[..|line|] == line && s[|line| + 1..] == rest;
  }

  /** Text made of whole lines. */
  predicate WholeLines(s: string) {
    s == "" || s[|s| - 1] == '\n'
  }

  lemma {:induction false} LinesAppend(a: string, b: string)
    requires WholeLines(a)
    ensures Lines(a + b) == Lines(a) + Lines(b)
    decreases |a|
  {
    hide Lines, StripCr;
    if a == "" {
      assert a + b == b;
      NoLines();
    } else {
      var i := IndexOf(a, '\n');
      var line, rest := a[..i], a[i + 1..];
      assert i < |a|;
      assert '\n' !in line;
      assert a == line + "\n" + rest;
      assert a + b == line + "\n" + (rest + b);
      LinesStep(line, rest);
      LinesStep(line, rest + b);
      LinesAppend(rest, b);
    }
  }

  // ---------- numbers ----------

  function Decimal(n: nat): (s: string)
    ensures s != "" && forall i :: 0 <= i < |s| ==> '0' <= s[i] <= '9'
  {
    if n < 10 then [('0' as int + n) as char] else Decimal(n / 10) + [('0' as int + n % 10) as char]
  }

  function Digits(s: string): Option<nat> {
    if s == "" then Some(0)
    else
      var c := s[|s| - 1];
      if !('0' <= c <= '9') then None
      else match Digits(s[..|s| - 1])
        case Some(n) => Some(10 * n + (c as int - '0' as int))
        case None => None
  }

  /** `str::parse::<u64>`: digits after an optional plus sign, within 64 bits. */
  function ParseU64(s: string): Option<u64> {
    var d := if s != "" && s[0] == '+' then s[1..] else s;
    if d == "" then None
    else match Digits(d)
      case Some(n) => if n < U64_LIMIT then Some(n) else None
      case None => None
  }

  lemma {:induction false} DigitsOfDecimal(n: nat)
    ensures Digits(Decimal(n)) == Some(n)
  {
    if n < 10 {
      var s := Decimal(n);
      assert s[..|s| - 1] == "";
    } else {
      DigitsOfDecimal(n / 10);
      var s := Decimal(n);
      assert s[..|s| - 1] == Decimal(n / 10);
    }
  }

  // ---------- printer and parser ----------

  function ThemeName(t: Theme): string {
    match t case System => "system" case Light => "light" case Dark => "dark"
  }

  function ParseTheme(s: string): Theme {
    if s == "light" then Light else if s == "dark" then Dark else System
  }

  const IDLE := "idle_timeout_secs"
  const THEME := "theme"
  const LAST_PATH := "last_vault_path"
  const HELLO := "hello_enabled"

  function Entry(key: string, value: string): string {
    key + "=" + value
  }

  function IdleText(p: Prefs): string {
    match p.idleTimeoutSecs case Some(n) => Decimal(n) case None => "off"
  }

  function BoolText(b: bool): string {
    if b then "true" else "false"
  }

  function PathLines(p: Prefs): string {
    match p.lastVaultPath case Some(v) => Entry(LAST_PATH, v) + "\n" case None => ""
  }

  function Serialized(p: Prefs): string {
    Entry(IDLE, IdleText(p)) + "\n"
    + (Entry(THEME, ThemeName(p.theme)) + "\n"
       + (PathLines(p) + (Entry(HELLO, BoolText(p.helloEnabled)) + "\n" + "")))
  }

  /** One key and its value, both trimmed; an unreadable value keeps what was there, a theme falls back. */
  function Assign(p: Prefs, key: string, value: string): Prefs {
    if key == IDLE then
      if value == "off" then p.(idleTimeoutSecs := None)
      else if ParseU64(value).Some? then p.(idleTimeoutSecs := ParseU64(value)) else p
    else if key == THEME then p.(theme := ParseTheme(value))
    else if key == LAST_PATH then p.(lastVaultPath := Some(value))
    else if key == HELLO then
      if value == "true" then p.(helloEnabled := true) else if value == "false" then p.(helloEnabled := false) else p
    else p
  }

  function ApplyLine(p: Prefs, line: string): Prefs {
    var t := Trim(line);
    if t == "" || t[0] == '#' then p
    else
      var i := IndexOf(t, '=');
      if i == |t| then p else Assign(p, Trim(t[..i]), Trim(t[i + 1..]))
  }

  function ApplyLines(p: Prefs, lines: seq<string>): Prefs
    decreases |lines|
  {
    if lines == [] then p else ApplyLines(ApplyLine(p, lines[0]), lines[1..])
  }

  function Parsed(text: string): Prefs {
    ApplyLines(DEFAULT, Lines(text))
  }

  method ToSerialized(p: Prefs) returns (s: string)
    ensures s == Serialized(p)
  {
    hide Decimal, Entry, ThemeName, BoolText;
    s := "";
    match p.idleTimeoutSecs {
      case Some(n) => s := s + (Entry(IDLE, Decimal(n)) + "\n");
      case None => s := s + (Entry(IDLE, "off") + "\n");
    }
    assert s == Entry(IDLE, IdleText(p)) + "\n";
    s := s + (Entry(THEME, ThemeName(p.theme)) + "\n");
    if p.lastVaultPath.Some? {
      s := s + (Entry(LAST_PATH, p.lastVaultPath.value) + "\n");
    }
    s := s + (Entry(HELLO, BoolText(p.helloEnabled)) + "\n");
    Associate(Entry(IDLE, IdleText(p)) + "\n", Entry(THEME, ThemeName(p.theme)) + "\n", PathLines(p),
              Entry(HELLO, BoolText(p.helloEnabled)) + "\n");
  }

  lemma Associate(a: string, b: string, c: string, d: string)
    ensures a + (b + (c + (d + ""))) == a + b + c + d
    ensures a + b + "" == a + b
  {
  }

  method FromSerialized(text: string) returns (p: Prefs)
    ensures p == Parsed(text)
  {
    hide ApplyLine, Lines;
    p := DEFAULT;
    var lines := Lines(text);
    for k := 0 to |lines|
      invariant ApplyLines(p, lines[k..]) == ApplyLines(DEFAULT, lines)
    {
      assert lines[k..][1..] == lines[k + 1..];
      p := ApplyLine(p, lines[k]);
    }
  }

  // ---------- the round trip ----------

  /** A key whose line cannot be taken for anything else. */
  predicate PlainKey(key: string) {
    key != "" && Tight(key) && '=' !in key && '\n' !in key && key[0] != '#'
  }

  lemma KeysArePlain()
    ensures PlainKey(IDLE) && PlainKey(THEME) && PlainKey(LAST_PATH) && PlainKey(HELLO)
  {
  }

  /** One printed entry is read as that key with that value. */
  lemma ApplyEntry(p: Prefs, key: string, value: string)
    requires PlainKey(key) && Tight(value)
    ensures ApplyLine(p, Entry(key, value)) == Assign(p, key, value)
    ensures StripCr(Entry(key, value)) == Entry(key, value)
  {
    hide Assign;
    var t := Entry(key, value);
    assert t[0] == key[0] && t[|t| - 1] == if value == "" then '=' else value[|value| - 1];
    assert Tight(t);
    TrimIffTight(t);
    TrimIffTight(key);
    TrimIffTight(value);
    IndexOfFirst(key, '=', value);
    assert t == key + ['='] + value;
    assert t[..|key|] == key && t[|key| + 1..] == value;
  }

  lemma EntryLines(p: Prefs, key: string, value: string, rest: string)
    requires PlainKey(key) && Tight(value) && '\n' !in value
    ensures ApplyLines(p, Lines(Entry(key, value) + "\n" + rest)) == ApplyLines(Assign(p, key, value), Lines(rest))
  {
    hide Assign, ApplyLine, Lines;
    ApplyEntry(p, key, value);
    assert '\n' !in Entry(key, value);
    LinesStep(Entry(key, value), rest);
    var all := [Entry(key, value)] + Lines(rest);
    assert all[1..] == Lines(rest);
  }

  lemma IdleRoundTrip(p: Prefs, q: Prefs)
    ensures Tight(IdleText(p)) && '\n' !in IdleText(p)
    ensures Assign(q, IDLE, IdleText(p)) == q.(idleTimeoutSecs := p.idleTimeoutSecs)
  {
    if p.idleTimeoutSecs.Some? {
      var n := p.idleTimeoutSecs.value;
      var s := Decimal(n);
      DigitsOfDecimal(n);
      assert '0' <= s[0] <= '9' && '0' <= s[|s| - 1] <= '9';
      assert s != "off" by { assert "off"[0] == 'o'; }
      assert ParseU64(s) == Some(n);
    }
  }

  lemma ThemeRoundTrip(t: Theme, q: Prefs)
    ensures Tight(ThemeName(t)) && '\n' !in ThemeName(t)
    ensures Assign(q, THEME, ThemeName(t)) == q.(theme := t)
  {
    assert |IDLE| == 17 && |THEME| == 5;
  }

  lemma HelloRoundTrip(b: bool, q: Prefs)
    ensures Tight(BoolText(b)) && '\n' !in BoolText(b)
    ensures Assign(q, HELLO, BoolText(b)) == q.(helloEnabled := b)
  {
    assert |IDLE| == 17 && |THEME| == 5 && |LAST_PATH| == 15 && |HELLO| == 13;
  }

  lemma PathRoundTrip(v: string, q: Prefs)
    ensures Assign(q, LAST_PATH, v) == q.(lastVaultPath := Some(v))
  {
    assert |IDLE| == 17 && |THEME| == 5 && |LAST_PATH| == 15;
  }

  /** The paths a preferences file can carry. */
  predicate Carried(path: Option<string>) {
    path.Some? ==> '\n' !in path.value && Trim(path.value) == path.value
  }

  /** What a printed preference set makes of what was read before it. */
  function Overridden(q: Prefs, p: Prefs): Prefs {
    p.(lastVaultPath := if p.lastVaultPath.Some? then p.lastVaultPath else q.lastVaultPath)
  }

  lemma SerializedOverrides(q: Prefs, p: Prefs)
    requires Carried(p.lastVaultPath)
    ensures ApplyLines(q, Lines(Serialized(p))) == Overridden(q, p)
  {
    hide Entry, Assign, Lines, ApplyLine, Trim, Decimal, PlainKey;
    KeysArePlain();
    var hello := Entry(HELLO, BoolText(p.helloEnabled)) + "\n" + "";
    var path := PathLines(p) + hello;
    var theme := Entry(THEME, ThemeName(p.theme)) + "\n" + path;
    var d1 := q.(idleTimeoutSecs := p.idleTimeoutSecs);
    var d2 := d1.(theme := p.theme);
    var d3 := if p.lastVaultPath.Some? then d2.(lastVaultPath := p.lastVaultPath) else d2;
    IdleRoundTrip(p, q);
    EntryLines(q, IDLE, IdleText(p), theme);
    ThemeRoundTrip(p.theme, d1);
    EntryLines(d1, THEME, ThemeName(p.theme), path);
    if p.lastVaultPath.Some? {
      var v := p.lastVaultPath.value;
      TrimIffTight(v);
      PathRoundTrip(v, d2);
      EntryLines(d2, LAST_PATH, v, hello);
      assert path == Entry(LAST_PATH, v) + "\n" + hello;
    } else {
      assert path == hello;
    }
    HelloRoundTrip(p.helloEnabled, d3);
    EntryLines(d3, HELLO, BoolText(p.helloEnabled), "");
    NoLines();
  }

  lemma NoLines()
    ensures Lines("") == []
  {
  }

  lemma {:induction false} LinesHaveNoNewline(s: string)
    ensures forall i :: 0 <= i < |Lines(s)| ==> '\n' !in Lines(s)[i]
    decreases |s|
  {
    if s != "" {
      var i := IndexOf(s, '\n');
      if i < |s| {
        LinesHaveNoNewline(s[i + 1..]);
        assert '\n' !in s[..i];
        assert '\n' !in StripCr(s[..i]);
      }
    }
  }

  lemma ApplyLineCarries(p: Prefs, line: string)
    requires Carried(p.lastVaultPath) && '\n' !in line
    ensures Carried(ApplyLine(p, line).lastVaultPath)
  {
    hide Trim, ParseU64;
    var t := Trim(line);
    TrimIffTight(line);
    if t != "" {
      var i := IndexOf(t, '=');
      if i < |t| {
        var v := t[i + 1..];
        TrimIffTight(v);
        TrimIffTight(Trim(v));
        assert forall c :: c in v ==> c in t;
      }
    }
  }

  lemma {:induction false} ParsedCarries(p: Prefs, lines: seq<string>)
    requires Carried(p.lastVaultPath) && forall i :: 0 <= i < |lines| ==> '\n' !in lines[i]
    ensures Carried(ApplyLines(p, lines).lastVaultPath)
    decreases |lines|
  {
    hide ApplyLine, Carried;
    if lines != [] {
      ApplyLineCarries(p, lines[0]);
      ParsedCarries(ApplyLine(p, lines[0]), lines[1..]);
    }
  }

  lemma DefaultCarries()
    ensures Carried(DEFAULT.lastVaultPath)
  {
  }

  /** Parsing undoes printing exactly for paths without a newline that are their own trim. */
  lemma PrefsRoundTrip(p: Prefs)
    ensures Parsed(Serialized(p)) == p <==> Carried(p.lastVaultPath)
  {
    hide Carried, Lines, ApplyLines, Serialized;
    if Carried(p.lastVaultPath) {
      SerializedOverrides(DEFAULT, p);
    }
    LinesHaveNoNewline(Serialized(p));
    DefaultCarries();
    ParsedCarries(DEFAULT, Lines(Serialized(p)));
  }

  // ---------- lines that mean nothing ----------

  /** Blank, a comment, without an equals sign, or with a key nobody reads. */
  predicate Ignorable(line: string) {
    var t := Trim(line);
    || t == "" || t[0] == '#' || '=' !in t
    || Trim(t[..IndexOf(t, '=')]) !in [IDLE, THEME, LAST_PATH, HELLO]
  }

  lemma IgnorableChangesNothing(p: Prefs, line: string)
    requires Ignorable(line)
    ensures ApplyLine(p, line) == p
  {
    hide Trim;
    var t := Trim(line);
    if t != "" && t[0] != '#' {
      var i := IndexOf(t, '=');
      if i < |t| {
        assert t[i] in t;
      }
    }
  }

  lemma {:induction false} ApplyLinesAppend(p: Prefs, a: seq<string>, b: seq<string>)
    ensures ApplyLines(p, a + b) == ApplyLines(ApplyLines(p, a), b)
    decreases |a|
  {
    hide ApplyLine;
    if a == [] {
      assert a + b == b;
    } else {
      assert (a + b)[1..] == a[1..] + b;
      ApplyLinesAppend(ApplyLine(p, a[0]), a[1..], b);
    }
  }

  lemma SameTrimSameFate(a: string, b: string)
    requires Trim(a) == Trim(b)
    ensures Ignorable(a) <==> Ignorable(b)
  {
    hide Trim, IndexOf;
  }

  /** A trailing carriage return does not save a line from being ignorable. */
  lemma IgnorableWithoutCr(line: string)
    requires Ignorable(line)
    ensures Ignorable(StripCr(line))
  {
    hide Ignorable, Trim;
    if StripCr(line) != line {
      var cut := StripCr(line);
      assert line == cut + ['\r'];
      TrimIgnoresCr(cut);
      SameTrimSameFate(cut, line);
    }
  }

  lemma {:induction false} TrimStartSnoc(s: string, c: char)
    requires White(c)
    ensures TrimStart(s + [c]) == if TrimStart(s) == "" then "" else TrimStart(s) + [c]
  {
    if s == "" {
      assert [c][1..] == "" && s + [c] == [c];
    } else if White(s[0]) {
      assert (s + [c])[1..] == s[1..] + [c];
      TrimStartSnoc(s[1..], c);
    }
  }

  lemma TrimIgnoresCr(s: string)
    ensures Trim(s + ['\r']) == Trim(s)
  {
    TrimStartSnoc(s, '\r');
    var t := TrimStart(s);
    if t != "" {
      assert (t + ['\r'])[..|t|] == t;
    }
  }

  /** Inserting an ignorable line between whole lines of any text never changes what it parses to. */
  lemma IgnorableLineInserted(a: string, line: string, b: string)
    requires WholeLines(a) && '\n' !in line && Ignorable(line)
    ensures Parsed(a + line + "\n" + b) == Parsed(a + b)
  {
    hide Lines, ApplyLine, Ignorable;
    LinesAppend(a, line + "\n" + b);
    assert a + line + "\n" + b == a + (line + "\n" + b);
    LinesStep(line, b);
    LinesAppend(a, b);
    IgnorableWithoutCr(line);
    var p := ApplyLines(DEFAULT, Lines(a));
    ApplyLinesAppend(DEFAULT, Lines(a), [StripCr(line)] + Lines(b));
    ApplyLinesAppend(DEFAULT, Lines(a), Lines(b));
    IgnorableChangesNothing(p, StripCr(line));
    var rest := [StripCr(line)] + Lines(b);
    assert rest[1..] == Lines(b);
  }

  // ---------- what a line means ----------

  predicate AllWhite(s: string) {
    forall i :: 0 <= i < |s| ==> White(s[i])
  }

  lemma {:induction false} TrimStartDrops(w: string, s: string)
    requires AllWhite(w)
    ensures TrimStart(w + s) == TrimStart(s)
  {
    hide White;
    if w == "" {
      assert w + s == s;
    } else {
      assert (w + s)[1..] == w[1..] + s;
      TrimStartDrops(w[1..], s);
    }
  }

  lemma {:induction false} TrimEndDrops(s: string, w: string)
    requires AllWhite(w)
    ensures TrimEnd(s + w) == TrimEnd(s)
  {
    hide White;
    if w == "" {
      assert s + w == s;
    } else {
      var k := |w| - 1;
      assert (s + w)[..|s + w| - 1] == s + w[..k];
      TrimEndDrops(s, w[..k]);
    }
  }

  /** Trimming finds the one part without white space at its ends that has nothing but white space around it. */
  lemma TrimIs(before: string, part: string, after: string)
    requires AllWhite(before) && AllWhite(after) && Tight(part)
    ensures Trim(before + part + after) == part
  {
    hide White;
    var s := before + part + after;
    if part == "" {
      assert s == before + (after + "");
      TrimStartDrops(before, after + "");
      TrimStartDrops(after, "");
    } else {
      assert s == before + (part + after);
      TrimStartDrops(before, part + after);
      assert TrimStart(part + after) == part + after;
      TrimEndDrops(part, after);
      TightTrims(part);
    }
  }

  /** A line in any spacing: blanks at either end and on both sides of the equals sign. */
  function Spaced(w1: string, key: string, w2: string, w3: string, value: string, w4: string): string {
    w1 + key + w2 + "=" + w3 + value + w4
  }

  lemma SpacedLine(p: Prefs, w1: string, key: string, w2: string, w3: string, value: string, w4: string)
    requires AllWhite(w1) && AllWhite(w2) && AllWhite(w3) && AllWhite(w4) && PlainKey(key) && Tight(value)
    ensures ApplyLine(p, Spaced(w1, key, w2, w3, value, w4)) == Assign(p, key, value)
  {
    hide Assign, Trim, White, AllWhite, Tight, PlainKey;
    var right := if value == "" then "" else w3 + value;
    var t := key + w2 + "=" + right;
    SpacedTrims(w1, key, w2, w3, value, w4);
    SpacedSplits(key, w2, right);
    SpacedParts(key, w2, w3, value);
  }

  /** The blanks after the equals sign go with those at the end when there is no value. */
  lemma SpacedTrims(w1: string, key: string, w2: string, w3: string, value: string, w4: string)
    requires AllWhite(w1) && AllWhite(w3) && AllWhite(w4) && PlainKey(key) && Tight(value)
    ensures var t := key + w2 + "=" + if value == "" then "" else w3 + value;
            Trim(Spaced(w1, key, w2, w3, value, w4)) == t && t != "" && t[0] != '#'
  {
    hide Trim, White;
    var right := if value == "" then "" else w3 + value;
    var after := if value == "" then w3 + w4 else w4;
    var t := key + w2 + "=" + right;
    assert Spaced(w1, key, w2, w3, value, w4) == w1 + t + after;
    assert t[0] == key[0] && t[|t| - 1] == if value == "" then '=' else value[|value| - 1];
    assert !White('=') by { EqualsIsNotWhite(); }
    TrimIs(w1, t, after);
  }

  lemma SpacedSplits(key: string, w2: string, right: string)
    requires PlainKey(key) && AllWhite(w2)
    ensures var t := key + w2 + "=" + right;
            IndexOf(t, '=') == |key + w2| && t[..|key + w2|] == key + w2 && t[|key + w2| + 1..] == right
  {
    hide White, Tight;
    NotInWhite(w2);
    IndexOfFirst(key + w2, '=', right);
    assert key + w2 + "=" + right == (key + w2) + ['='] + right;
  }

  lemma SpacedParts(key: string, w2: string, w3: string, value: string)
    requires AllWhite(w2) && AllWhite(w3) && PlainKey(key) && Tight(value)
    ensures Trim(key + w2) == key && Trim(if value == "" then "" else w3 + value) == value
  {
    hide Trim, White;
    assert key + w2 == "" + key + w2;
    TrimIs("", key, w2);
    var before := if value == "" then "" else w3;
    assert before + value + "" == if value == "" then "" else w3 + value;
    TrimIs(before, value, "");
  }

  lemma EqualsIsNotWhite()
    ensures !White('=')
  {
  }

  lemma NotInWhite(w: string)
    requires AllWhite(w)
    ensures '=' !in w
  {
    EqualsIsNotWhite();
  }

  /** Carriage returns at the end of a line change nothing about it. */
  lemma CrNeverMatters(p: Prefs, line: string)
    ensures ApplyLine(p, StripCr(line)) == ApplyLine(p, line)
  {
    hide Trim;
    var cut := StripCr(line);
    if cut != line {
      assert line == cut + ['\r'];
      TrimIgnoresCr(cut);
    }
  }

  lemma AppendedLine(text: string, line: string)
    requires WholeLines(text) && '\n' !in line
    ensures Parsed(text + line + "\n") == ApplyLine(Parsed(text), line)
  {
    hide Lines, ApplyLine;
    LinesAppend(text, line + "\n");
    assert text + line + "\n" == text + (line + "\n");
    assert line + "\n" == line + "\n" + "";
    LinesStep(line, "");
    NoLines();
    ApplyLinesAppend(DEFAULT, Lines(text), [StripCr(line)] + []);
    assert ([StripCr(line)] + [])[1..] == [];
    CrNeverMatters(Parsed(text), line);
  }

  /** What each entry does, in any spacing, after any whole lines: it sets its own preference and no other. An
      unreadable timeout or flag keeps what was there; an unknown theme is the system's. */
  lemma EntrySetsItsOwn(text: string, w1: string, w2: string, w3: string, value: string, w4: string)
    requires WholeLines(text) && Tight(value)
    requires AllWhite(w1) && AllWhite(w2) && AllWhite(w3) && AllWhite(w4)
    requires '\n' !in w1 && '\n' !in w2 && '\n' !in w3 && '\n' !in w4 && '\n' !in value
    ensures var p := Parsed(text);
            && Parsed(text + Spaced(w1, "idle_timeout_secs", w2, w3, value, w4) + "\n")
               == p.(idleTimeoutSecs := if value == "off" then None
                                        else if ParseU64(value).Some? then ParseU64(value) else p.idleTimeoutSecs)
            && Parsed(text + Spaced(w1, "theme", w2, w3, value, w4) + "\n")
               == p.(theme := if value == "light" then Light else if value == "dark" then Dark else System)
            && Parsed(text + Spaced(w1, "last_vault_path", w2, w3, value, w4) + "\n")
               == p.(lastVaultPath := Some(value))
            && Parsed(text + Spaced(w1, "hello_enabled", w2, w3, value, w4) + "\n")
               == p.(helloEnabled := value == "true" || (value != "false" && p.helloEnabled))
  {
    hide Parsed, ApplyLine, Assign, White, ParseU64, PlainKey;
    KeysArePlain();
    forall key | key in [IDLE, THEME, LAST_PATH, HELLO]
      ensures Parsed(text + Spaced(w1, key, w2, w3, value, w4) + "\n") == Assign(Parsed(text), key, value)
    {
      KeyHasNoNewline(key);
      AppendedLine(text, Spaced(w1, key, w2, w3, value, w4));
      SpacedLine(Parsed(text), w1, key, w2, w3, value, w4);
    }
    AssignMeans(Parsed(text), value);
  }

  lemma KeyHasNoNewline(key: string)
    requires key in [IDLE, THEME, LAST_PATH, HELLO]
    ensures '\n' !in key && PlainKey(key)
  {
    KeysArePlain();
  }

  lemma AssignMeans(p: Prefs, value: string)
    ensures Assign(p, IDLE, value)
         == p.(idleTimeoutSecs := if value == "off" then None
                                  else if ParseU64(value).Some? then ParseU64(value) else p.idleTimeoutSecs)
    ensures Assign(p, THEME, value)
         == p.(theme := if value == "light" then Light else if value == "dark" then Dark else System)
    ensures Assign(p, LAST_PATH, value) == p.(lastVaultPath := Some(value))
    ensures Assign(p, HELLO, value)
         == p.(helloEnabled := value == "true" || (value != "false" && p.helloEnabled))
  {
    assert |IDLE| == 17 && |THEME| == 5 && |LAST_PATH| == 15 && |HELLO| == 13;
  }

  /** Later lines win: a printed preference set after any whole lines is what is read, only that a path set
      before stays where the set has none. Nothing at all reads as five minutes, system theme, no path, no flag. */
  lemma LaterLinesWin(text: string, p: Prefs)
    requires WholeLines(text) && Carried(p.lastVaultPath)
    ensures Parsed(text + Serialized(p))
         == p.(lastVaultPath := if p.lastVaultPath.Some? then p.lastVaultPath else Parsed(text).lastVaultPath)
    ensures Parsed("") == Prefs(Some(300), System, None, false)
  {
    hide Lines, ApplyLine, Serialized;
    LinesAppend(text, Serialized(p));
    ApplyLinesAppend(DEFAULT, Lines(text), Lines(Serialized(p)));
    SerializedOverrides(Parsed(text), p);
    NoLines();
  }

  function Zeroes(k: nat): string {
    seq(k, _ => '0')
  }

  lemma {:induction false} DigitsAfterZeroes(k: nat, s: string)
    ensures Digits(Zeroes(k) + s) == Digits(s)
    decreases |s|, k
  {
    var t := Zeroes(k) + s;
    if s != "" {
      DigitsAfterZeroes(k, s[..|s| - 1]);
      assert t[..|t| - 1] == Zeroes(k) + s[..|s| - 1];
    } else if k > 0 {
      DigitsAfterZeroes(k - 1, s);
      assert t[..|t| - 1] == Zeroes(k - 1) + s;
    } else {
      assert t == s;
    }
  }

  /** A digit string reads as `n` exactly when it is the decimal form of `n` after some zeroes. */
  lemma {:induction false} DigitsShape(s: string, n: nat) returns (k: nat)
    requires s != "" && Digits(s) == Some(n)
    ensures s == Zeroes(k) + Decimal(n)
    decreases |s|
  {
    var front, c := s[..|s| - 1], s[|s| - 1];
    var d := c as int - '0' as int;
    assert s == front + [c] && c == ('0' as int + d) as char;
    if front == "" {
      k := 0;
    } else {
      var m := Digits(front).value;
      k := DigitsShape(front, m);
      if m == 0 {
        assert front == Zeroes(k) + "0" == Zeroes(k + 1);
        k := k + 1;
      } else {
        assert n / 10 == m && n % 10 == d;
        assert Decimal(n) == Decimal(m) + [c];
      }
    }
  }

  /** The timeout reader takes exactly the decimal forms of 64-bit numbers, leading zeroes and one plus sign
      allowed. */
  lemma ParseU64Iff(s: string, n: nat)
    ensures ParseU64(s) == Some(n) <==>
              n < U64_LIMIT && exists k: nat :: s == Zeroes(k) + Decimal(n) || s == "+" + (Zeroes(k) + Decimal(n))
  {
    hide Zeroes, Decimal, Digits;
    forall k: nat
      ensures Digits(Zeroes(k) + Decimal(n)) == Some(n)
      ensures Zeroes(k) + Decimal(n) != "" && (Zeroes(k) + Decimal(n))[0] != '+'
    {
      DigitsAfterZeroes(k, Decimal(n));
      DigitsOfDecimal(n);
      FirstIsDigit(k, n);
    }
    if ParseU64(s) == Some(n) {
      var d := if s[0] == '+' then s[1..] else s;
      var k := DigitsShape(d, n);
      assert s[0] == '+' ==> s == "+" + d;
    }
    forall k: nat | s == "+" + (Zeroes(k) + Decimal(n)) ensures s[0] == '+' && s[1..] == Zeroes(k) + Decimal(n) {
    }
  }

  lemma FirstIsDigit(k: nat, n: nat)
    ensures var s := Zeroes(k) + Decimal(n); s != "" && s[0] != '+'
  {
  }
}
