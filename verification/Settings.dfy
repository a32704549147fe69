/** The settings file (src/settings.rs): one `key=value` line each, printed and
    parsed. */
module Settings {
  import opened Wrappers
  import opened Text
  import opened Decimal
  import opened Bytes

  datatype Settings = Settings(unlockTimeoutSecs: U64, quitKey: string, hideKey: string)

  const DEFAULT := Settings(14400, "x", "h")

  const U64_BOUND := 0x1_0000_0000_0000_0000

  datatype Key = TimeoutKey | QuitKey | HideKey | UnknownKey

  function KeyName(key: Key): string {
    match key
    case TimeoutKey => "unlock_timeout_secs"
    case QuitKey => "quit_key"
    case HideKey => "hide_key"
    case UnknownKey => "?"
  }

  function KeyOf(name: string): Key {
    if name == "unlock_timeout_secs" then TimeoutKey
    else if name == "quit_key" then QuitKey
    else if name == "hide_key" then HideKey
    else UnknownKey
  }

  // ---------------------------------------------------------------------
  // Lines.

  function StripCarriageReturn(s: string): string {
    if s != [] && s[|s| - 1] == '\r' then s[..|s| - 1] else s
  }

  /** `str::lines`: split after each line feed, which goes with a carriage return
      before it; text after the last line feed is a line unless empty. */
  function Lines(s: string): seq<string>
    decreases |s|
  {
    if s == [] then []
    else
      var split := SplitOnce(s, '\n');
      if split.None? then [s]
      else [StripCarriageReturn(split.value.0)] + Lines(split.value.1)
  }

  // ---------------------------------------------------------------------
  // Loading.

  datatype Item = Item(key: Key, value: string)

  /** What a line says, if it has the form of an assignment. */
  function ItemOf(line: string): Option<Item> {
    var split := SplitOnce(line, '=');
    if split.None? then None else Some(Item(KeyOf(Trim(split.value.0)), Trim(split.value.1)))
  }

  function ApplyItem(s: Settings, item: Item): Settings {
    match item.key
    case TimeoutKey =>
      var n := ParseUnsigned(item.value, U64_BOUND);
      if n.Some? && n.value > 0 then s.(unlockTimeoutSecs := n.value) else s
    case QuitKey => if |item.value| == 1 then s.(quitKey := item.value) else s
    case HideKey => if |item.value| == 1 then s.(hideKey := item.value) else s
    case UnknownKey => s
  }

  /** The effect of one line; a line that says nothing usable is passed over. */
  function ApplyLine(s: Settings, line: string): Settings {
    var item := ItemOf(line);
    if item.None? then s else ApplyItem(s, item.value)
  }

  function ApplyLines(lines: seq<string>): Settings {
    if lines == [] then DEFAULT
    else ApplyLine(ApplyLines(lines[..|lines| - 1]), lines[|lines| - 1])
  }

  /** What `load` makes of the file's text; there is none if the file is missing
      or is not UTF-8. */
  function Loaded(content: Option<string>): Settings {
    if content.None? then DEFAULT else ApplyLines(Lines(content.value))
  }

  /** `load`, with a loop that overwrites its settings line by line. */
  method Load(content: Option<string>) returns (settings: Settings)
    ensures settings == Loaded(content)
  {
    settings := DEFAULT;
    if content.None? {
      return;
    }
    var lines := Lines(content.value);
    for i := 0 to |lines|
      invariant settings == ApplyLines(lines[..i])
    {
      assert lines[..i + 1][..i] == lines[..i];
      var split := SplitOnce(lines[i], '=');
      if split.Some? {
        var value := Trim(split.value.1);
        match KeyOf(Trim(split.value.0)) {
          case TimeoutKey =>
            var n := ParseUnsigned(value, U64_BOUND);
            if n.Some? && n.value > 0 {
              settings := settings.(unlockTimeoutSecs := n.value);
            }
          case QuitKey =>
            if |value| == 1 {
              settings := settings.(quitKey := value);
            }
          case HideKey =>
            if |value| == 1 {
              settings := settings.(hideKey := value);
            }
          case UnknownKey =>
        }
      }
    }
    assert lines[..|lines|] == lines;
  }

  // ---------------------------------------------------------------------
  // Saving.

  function Assignment(key: Key, value: string): string {
    KeyName(key) + "=" + value
  }

  /** The text that `save` writes. */
  function Printed(s: Settings): string {
    Assignment(TimeoutKey, Numeral(s.unlockTimeoutSecs)) + "\n"
    + Assignment(QuitKey, s.quitKey) + "\n"
    + Assignment(HideKey, s.hideKey) + "\n"
  }

  // ---------------------------------------------------------------------
  // Loading any text.

  predicate SingleKey(key: string) {
    |key| == 1 && !IsWhitespace(key[0])
  }

  /** Settings that loading can yield. */
  predicate InDomain(s: Settings) {
    s.unlockTimeoutSecs > 0 && SingleKey(s.quitKey) && SingleKey(s.hideKey)
  }

  lemma ApplyLineInDomain(s: Settings, line: string)
    requires InDomain(s)
    ensures InDomain(ApplyLine(s, line))
  {
    var item := ItemOf(line);
    if item.Some? {
      TrimResult(SplitOnce(line, '=').value.1);
      ApplyItemInDomain(s, item.value);
    }
  }

  lemma ApplyItemInDomain(s: Settings, item: Item)
    requires InDomain(s) && Trimmed(item.value)
    ensures InDomain(ApplyItem(s, item))
  {
  }

  lemma {:induction false} ApplyLinesInDomain(lines: seq<string>)
    ensures InDomain(ApplyLines(lines))
  {
    if lines != [] {
      ApplyLinesInDomain(lines[..|lines| - 1]);
      ApplyLineInDomain(ApplyLines(lines[..|lines| - 1]), lines[|lines| - 1]);
    }
  }

  /** Whatever the file holds, the timeout is positive and the shortcut keys are
      single characters. */
  lemma LoadedInDomain(content: Option<string>)
    ensures InDomain(Loaded(content))
  {
    if content.Some? {
      ApplyLinesInDomain(Lines(content.value));
    }
  }

  // ---------------------------------------------------------------------
  // The last usable line of each key wins.

  predicate UsableNumber(v: string) {
    var n := ParseUnsigned(v, U64_BOUND);
    n.Some? && n.value > 0
  }

  /** A number for the timeout, one character for the others. */
  predicate Usable(item: Item) {
    if item.key == TimeoutKey then UsableNumber(item.value) else |item.value| == 1
  }

  /** The last usable value given for `key`. */
  function LastUsable(lines: seq<string>, key: Key): Option<string> {
    if lines == [] then None
    else
      var item := ItemOf(lines[|lines| - 1]);
      if item.Some? && item.value.key == key && Usable(item.value) then Some(item.value.value)
      else LastUsable(lines[..|lines| - 1], key)
  }

  function TimeoutFrom(v: Option<string>): (n: U64) {
    if v.None? then 14400
    else var n := ParseUnsigned(v.value, U64_BOUND); if n.None? then 14400 else n.value
  }

  function TextFrom(v: Option<string>, default: string): string {
    if v.None? then default else v.value
  }

  function FromLast(t: Option<string>, q: Option<string>, h: Option<string>): Settings {
    Settings(TimeoutFrom(t), TextFrom(q, "x"), TextFrom(h, "h"))
  }

  lemma ApplyItemLast(t: Option<string>, q: Option<string>, h: Option<string>, item: Item)
    ensures ApplyItem(FromLast(t, q, h), item) ==
            FromLast(if item.key == TimeoutKey && Usable(item) then Some(item.value) else t,
                     if item.key == QuitKey && Usable(item) then Some(item.value) else q,
                     if item.key == HideKey && Usable(item) then Some(item.value) else h)
  {
  }

  /** Loading yields, for each key, the last usable value given or the default. */
  lemma {:induction false} LastUsableWins(lines: seq<string>)
    ensures ApplyLines(lines) ==
            FromLast(LastUsable(lines, TimeoutKey), LastUsable(lines, QuitKey), LastUsable(lines, HideKey))
  {
    if lines != [] {
      var before := lines[..|lines| - 1];
      LastUsableWins(before);
      var item := ItemOf(lines[|lines| - 1]);
      if item.Some? {
        ApplyItemLast(LastUsable(before, TimeoutKey), LastUsable(before, QuitKey), LastUsable(before, HideKey), item.value);
      }
    }
  }

  // ---------------------------------------------------------------------
  // The round trip.

  predicate OneLine(s: string) {
    '\n' !in s && '\r' !in s
  }

  lemma LinesOfLine(line: string, rest: string)
    requires OneLine(line)
    ensures Lines(line + "\n" + rest) == [line] + Lines(rest)
  {
    SplitOnceAt(line, '\n', rest);
    assert line + "\n" + rest == line + ['\n'] + rest;
    assert line == [] || line[|line| - 1] in line;
  }

  lemma LastLine(line: string)
    requires OneLine(line)
    ensures Lines(line + "\n") == [line]
  {
    LinesOfLine(line, "");
    assert line + "\n" + "" == line + "\n";
  }

  lemma Regroup(a: string, b: string, c: string, d: string, e: string, f: string)
    ensures a + b + c + d + e + f == a + b + (c + d + (e + f))
  {
    assert a + b + (c + d + (e + f)) == a + b + (c + d) + (e + f);
    assert a + b + (c + d) == a + b + c + d;
  }

  lemma ThreeLines(l1: string, l2: string, l3: string)
    requires OneLine(l1) && OneLine(l2) && OneLine(l3)
    ensures Lines(l1 + "\n" + l2 + "\n" + l3 + "\n") == [l1, l2, l3]
  {
    Regroup(l1, "\n", l2, "\n", l3, "\n");
    LinesOfLine(l1, l2 + "\n" + (l3 + "\n"));
    LinesOfLine(l2, l3 + "\n");
    LastLine(l3);
  }

  lemma KeyNameTrimmed(key: Key)
    ensures Trimmed(KeyName(key))
  {
  }

  lemma KeyNamePlain(key: Key)
    ensures OneLine(KeyName(key)) && '=' !in KeyName(key)
  {
  }

  lemma KeyNameReads(key: Key)
    ensures KeyOf(KeyName(key)) == key
  {
    assert KeyName(QuitKey)[0] == 'q' && KeyName(HideKey)[0] == 'h';
  }

  lemma AssignmentSays(key: Key, value: string)
    requires Trimmed(value) && OneLine(value)
    ensures OneLine(Assignment(key, value))
    ensures ItemOf(Assignment(key, value)) == Some(Item(key, value))
  {
    KeyNamePlain(key);
    KeyNameTrimmed(key);
    KeyNameReads(key);
    var name := KeyName(key);
    SplitOnceAt(name, '=', value);
    assert name + "=" + value == name + ['='] + value;
    TrimOfTrimmed(name);
    TrimOfTrimmed(value);
  }

  /** White space around the key, the value and the line makes no difference. */
  lemma SpacingDoesNotMatter(pre: string, key: Key, mid: string, gap: string, value: string, post: string)
    requires Blank(pre) && Blank(mid) && Blank(gap) && Blank(post) && Trimmed(value)
    ensures ItemOf(pre + KeyName(key) + mid + ['='] + (gap + value + post)) == Some(Item(key, value))
  {
    KeyNamePlain(key);
    KeyNameTrimmed(key);
    KeyNameReads(key);
    TrimSurrounded(pre, KeyName(key), mid);
    TrimSurrounded(gap, value, post);
    SplitOnceAt(pre + KeyName(key) + mid, '=', gap + value + post);
  }

  lemma NumeralPlain(n: nat)
    ensures OneLine(Numeral(n)) && Trimmed(Numeral(n))
  {
    forall c <- Numeral(n) ensures IsDigit(c) {
      var i :| 0 <= i < |Numeral(n)| && Numeral(n)[i] == c;
    }
  }

  lemma SingleKeyPlain(key: string)
    requires SingleKey(key)
    ensures OneLine(key) && Trimmed(key)
  {
    assert key == [key[0]];
  }

  lemma ThreeItems(l1: string, l2: string, l3: string)
    ensures ApplyLines([l1, l2, l3]) == ApplyLine(ApplyLine(ApplyLine(DEFAULT, l1), l2), l3)
  {
    assert [l1, l2, l3][..2] == [l1, l2] && [l1, l2][..1] == [l1] && [l1][..0] == [];
    assert ApplyLines([l1]) == ApplyLine(DEFAULT, l1);
    assert ApplyLines([l1, l2]) == ApplyLine(ApplyLines([l1]), l2);
  }

  lemma SavedLoads(s: Settings)
    requires InDomain(s)
    ensures Loaded(Some(Printed(s))) == s
  {
    var n := s.unlockTimeoutSecs;
    NumeralPlain(n);
    SingleKeyPlain(s.quitKey);
    SingleKeyPlain(s.hideKey);
    AssignmentSays(TimeoutKey, Numeral(n));
    AssignmentSays(QuitKey, s.quitKey);
    AssignmentSays(HideKey, s.hideKey);
    ParseNumeral(n, U64_BOUND);
    var (l1, l2, l3) := (Assignment(TimeoutKey, Numeral(n)), Assignment(QuitKey, s.quitKey), Assignment(HideKey, s.hideKey));
    ThreeLines(l1, l2, l3);
    ThreeItems(l1, l2, l3);
  }

  /** Saving and loading gives settings back exactly when the timeout is positive
      and the keys are single characters that are not whitespace: `=` will do. */
  lemma SaveLoadRoundTrip(s: Settings)
    ensures Loaded(Some(Printed(s))) == s <==> InDomain(s)
  {
    LoadedInDomain(Some(Printed(s)));
    if InDomain(s) {
      SavedLoads(s);
    }
  }

  /** The text that the default settings are saved as. */
  lemma DefaultPrinted()
    ensures Printed(DEFAULT) == "unlock_timeout_secs=14400\nquit_key=x\nhide_key=h\n"
  {
    DefaultTimeoutPrinted();
  }

  lemma DefaultTimeoutPrinted()
    ensures Numeral(14400) == "14400"
  {
    assert Numeral(14) == "14";
    assert Numeral(144) == Numeral(14) + "4";
    assert Numeral(1440) == Numeral(144) + "0";
    assert Numeral(14400) == Numeral(1440) + "0";
  }

  /** Lines may end in a carriage return and a line feed. */
  lemma CarriageReturnsAreDropped(line: string, rest: string)
    requires OneLine(line)
    ensures Lines(line + "\r" + "\n" + rest) == Lines(line + "\n" + rest) == [line] + Lines(rest)
  {
    LinesOfLine(line, rest);
    var ended := line + "\r";
    SplitOnceAt(ended, '\n', rest);
    assert ended + "\n" + rest == ended + ['\n'] + rest;
    assert ended[..|ended| - 1] == line;
  }

  /** The last line needs no line feed. */
  lemma LastLineNeedsNoFeed(line: string)
    requires OneLine(line) && line != ""
    ensures Lines(line) == [line] == Lines(line + "\n")
  {
    LastLine(line);
  }

  /** Without a file, or with an empty one, the settings are the defaults. */
  lemma DefaultsWithoutFile()
    ensures Loaded(None) == Settings(14400, "x", "h") == Loaded(Some(""))
  {
  }
}
