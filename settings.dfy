/**
  The per-language indentation store of the plugin: a dictionary from
  language id to indentation mode, the `lang:value` configuration format it is
  read from and written to, and the lookup that falls back to gedit's own
  preference. A mode is TABS or a number of spaces.
*/
module IndentationSettings {
  import opened Wrappers
  import opened Text
  import opened Numerals
  import opened Ordering

  /** The mode that means "indent with tabs"; any other mode is a count of spaces. */
  const TABS := 0

  /** The language configured when there is no configuration file. */
  const MAKEFILE := "makefile"

  /** Why a configuration line is rejected; the plugin raises ValueError for both. */
  datatype ParseError = MalformedLine | NotAnInteger

  /** A language id and its indentation mode. */
  type Entry = (string, int)

  /** The text the preferences dialog shows for a mode. */
  function IndentToString(indent: int): (r: string)
    ensures r == "tabs" <==> indent == TABS
  {
    if indent == TABS then "tabs" else IntToString(indent) + " spaces"
  }

  /** A mode given as `tabs` or as a decimal number of spaces. */
  function IndentFromString(s: string): (r: Result<int, ParseError>)
    ensures s == "tabs" ==> r == Ok(TABS)
    ensures s != "tabs" ==> (r.Ok? <==> IsIntLiteral(s))
    ensures r.Err? ==> r.error == NotAnInteger
    ensures s != "tabs" && r.Ok? ==> ParseInt(s) == Some(r.value)
  {
    if s == "tabs" then Ok(TABS)
    else match ParseInt(s)
      case Some(n) => Ok(n)
      case None => Err(NotAnInteger)
  }

  /** A line whose first non-blank character is `#`. */
  predicate IsComment(line: string) {
    var t := Strip(line);
    |t| > 0 && t[0] == '#'
  }

  /**
    A language id that survives a trip through the file: no colon, no
    newline, no surrounding blanks, no leading `#`.
  */
  predicate WellFormedLang(lang: string) {
    && ':' !in lang
    && '\n' !in lang
    && Stripped(lang)
    && (lang == [] || lang[0] != '#')
  }

  /**
    One configuration line: nothing for a comment, otherwise the language and
    mode on either side of the first colon, both stripped.
  */
  function ReadLine(line: string): (r: Result<Option<Entry>, ParseError>)
    ensures r == Ok(None) <==> IsComment(line)
    ensures !IsComment(line) && ':' !in Strip(line) ==> r == Err(MalformedLine)
    ensures r.Ok? && r.value.Some? && '\n' !in Strip(line) ==> WellFormedLang(r.value.value.0)
  {
    var t := Strip(line);
    if |t| > 0 && t[0] == '#' then Ok(None)
    else
      var parts := SplitOnce(t, ':');
      if |parts| != 2 then Err(MalformedLine)
      else
        var lang := Strip(parts[0]);
        assert lang != [] ==> lang[0] == t[0];
        match IndentFromString(Strip(parts[1]))
        case Ok(indent) => Ok(Some((lang, indent)))
        case Err(e) => Err(e)
  }

  /** How the file spells a mode: the count of spaces when positive, `tabs` otherwise. */
  function FormatValue(indent: int): (value: string)
    ensures value == "tabs" <==> indent <= 0
    ensures indent > 0 ==> IsDigits(value) && DigitsValue(value) == indent && value[0] != '0'
  {
    if indent > 0 then
      var digits := IntToString(indent);
      assert IsDigit(digits[0]);
      digits
    else "tabs"
  }

  /** The mode that a written mode reads back as. */
  function Normalized(indent: int): int {
    if indent > 0 then indent else TABS
  }

  /** The line the configuration file holds for one entry: a complete line unless the id holds a newline. */
  function FormatLine(lang: string, indent: int): (line: string)
    ensures '\n' !in lang ==> IsLine(line)
  {
    var value := FormatValue(indent);
    var line := lang + ":" + value + "\n";
    assert line[..|line| - 1] == lang + ":" + value;
    assert '\n' !in value by {
      if indent > 0 {
        assert forall i :: 0 <= i < |value| ==> IsDigit(value[i]);
      }
    }
    line
  }

  /** The entries of `m` in ascending order of language id, as `sorted(settings.items())` gives them. */
  function SortedItems(m: map<string, int>): (items: seq<Entry>)
    ensures |items| == |m|
    ensures forall i :: 0 <= i < |items| ==> items[i].0 in m && items[i].1 == m[items[i].0]
    ensures forall i, j :: 0 <= i < j < |items| ==> StrLess(items[i].0, items[j].0)
  {
    var keys := SortedKeys(m.Keys);
    seq(|keys|, i requires 0 <= i < |keys| => (keys[i], m[keys[i]]))
  }

  /** Every entry of `m` is among its sorted entries. */
  lemma SortedItemsCover(m: map<string, int>)
    ensures forall k :: k in m ==> (k, m[k]) in SortedItems(m)
  {
    var keys := SortedKeys(m.Keys);
    var items := SortedItems(m);
    forall k | k in m ensures (k, m[k]) in items {
      var i :| 0 <= i < |keys| && keys[i] == k;
      assert items[i] == (k, m[k]);
    }
  }

  /** The lines written for a list of entries, in order. */
  function FormatLines(items: seq<Entry>): (lines: seq<string>)
    ensures |lines| == |items|
  {
    if items == [] then []
    else
      var last := items[|items| - 1];
      FormatLines(items[..|items| - 1]) + [FormatLine(last.0, last.1)]
  }

  /** Line `i` is the line for entry `i`. */
  lemma {:induction false} FormatLinesAt(items: seq<Entry>, i: nat)
    requires i < |items|
    ensures FormatLines(items)[i] == FormatLine(items[i].0, items[i].1)
  {
    if i < |items| - 1 {
      FormatLinesAt(items[..|items| - 1], i);
    }
  }

  lemma FormatLinesStep(items: seq<Entry>, i: nat)
    requires i < |items|
    ensures FormatLines(items[..i + 1]) == FormatLines(items[..i]) + [FormatLine(items[i].0, items[i].1)]
  {
    assert items[..i + 1][..i] == items[..i];
  }

  /** The contents `write` gives the configuration file. */
  function Serialize(m: map<string, int>): (lines: seq<string>)
    ensures |lines| == |m|
  {
    FormatLines(SortedItems(m))
  }

  /** The text `write` gives the configuration file: its lines one after the other. */
  function Render(m: map<string, int>): string {
    Concat(Serialize(m))
  }

  /** Every written line is a complete line when no language id holds a newline. */
  lemma SerializeLines(m: map<string, int>)
    requires forall lang :: lang in m ==> '\n' !in lang
    ensures forall i :: 0 <= i < |Serialize(m)| ==> IsLine(Serialize(m)[i])
  {
    var items := SortedItems(m);
    forall i | 0 <= i < |items| ensures IsLine(Serialize(m)[i]) {
      FormatLinesAt(items, i);
    }
  }

  /** Iterating over the written text yields the written lines. */
  lemma RenderSplits(m: map<string, int>)
    requires forall lang :: lang in m ==> '\n' !in lang
    ensures SplitLines(Render(m)) == Serialize(m)
  {
    SerializeLines(m);
    SplitLinesConcat(Serialize(m));
  }

  /** The file holds one line per entry, in ascending order of language id. */
  lemma SerializeOrder(m: map<string, int>, i: nat, j: nat)
    requires i < j < |m|
    ensures exists a, b ::
      && a in m && b in m && StrLess(a, b)
      && Serialize(m)[i] == FormatLine(a, m[a]) && Serialize(m)[j] == FormatLine(b, m[b])
  {
    var items := SortedItems(m);
    FormatLinesAt(items, i);
    FormatLinesAt(items, j);
  }

  /** One pass of `read`'s loop: an entry is stored, a comment or a ValueError leaves the map alone. */
  function Insert(m: map<string, int>, r: Result<Option<Entry>, ParseError>): map<string, int> {
    if r.Ok? && r.value.Some? then m[r.value.value.0 := r.value.value.1] else m
  }

  /** What `read_line` makes of each line, in order. */
  function ParseLines(lines: seq<string>): (parsed: seq<Result<Option<Entry>, ParseError>>)
    ensures |parsed| == |lines|
    ensures forall i :: 0 <= i < |lines| ==> parsed[i] == ReadLine(lines[i])
  {
    seq(|lines|, i requires 0 <= i < |lines| => ReadLine(lines[i]))
  }

  /** The dictionary after `read`'s loop has gone through parsed lines in order. */
  function LoadEntries(m: map<string, int>, parsed: seq<Result<Option<Entry>, ParseError>>): (r: map<string, int>)
    ensures m.Keys <= r.Keys
  {
    if parsed == [] then m
    else Insert(LoadEntries(m, parsed[..|parsed| - 1]), parsed[|parsed| - 1])
  }

  lemma LoadEntriesAppend(m: map<string, int>, parsed: seq<Result<Option<Entry>, ParseError>>, p: Result<Option<Entry>, ParseError>)
    ensures LoadEntries(m, parsed + [p]) == Insert(LoadEntries(m, parsed), p)
  {
    assert (parsed + [p])[..|parsed|] == parsed;
  }

  /** The dictionary after `read` has gone through `lines` in order. */
  function LoadLines(m: map<string, int>, lines: seq<string>): (r: map<string, int>)
    ensures m.Keys <= r.Keys
  {
    LoadEntries(m, ParseLines(lines))
  }

  lemma LoadLinesStep(m: map<string, int>, lines: seq<string>, i: nat)
    requires i < |lines|
    ensures LoadLines(m, lines[..i + 1]) == Insert(LoadLines(m, lines[..i]), ReadLine(lines[i]))
  {
    var parsed := ParseLines(lines[..i + 1]);
    assert parsed[..i] == ParseLines(lines[..i]);
  }

  /**
    The dictionary after `read`: a missing file adds `makefile` with TABS,
    otherwise the lines of the file are read in order.
  */
  function Load(m: map<string, int>, file: Option<string>): (r: map<string, int>)
    ensures m.Keys <= r.Keys
    ensures file.None? ==> r.Keys == m.Keys + {MAKEFILE} && r[MAKEFILE] == TABS
    ensures file.None? ==> forall k :: k in m && k != MAKEFILE ==> r[k] == m[k]
  {
    match file
    case None => m[MAKEFILE := TABS]
    case Some(text) => LoadLines(m, SplitLines(text))
  }

  /** `default_mode()`: gedit's tab width when it inserts spaces, TABS otherwise. */
  function DefaultMode(insertSpaces: bool, tabsSize: nat): (mode: int)
    ensures mode >= 0
    ensures mode == TABS <==> !insertSpaces || tabsSize == 0
    ensures insertSpaces ==> mode == tabsSize
  {
    if insertSpaces then tabsSize else TABS
  }

  /** Every mode of `m` as it reads back after being written. */
  function Normalize(m: map<string, int>): (r: map<string, int>)
    ensures r.Keys == m.Keys
    ensures forall k :: k in m ==> r[k] == Normalized(m[k])
  {
    map k | k in m :: Normalized(m[k])
  }

  /** A mode other than TABS is shown as its number followed by " spaces", and that number reads back. */
  lemma IndentToStringSpaces(indent: int)
    requires indent != TABS
    ensures var r := IndentToString(indent);
      |r| > 7 && r[|r| - 7..] == " spaces" && r[..|r| - 7] == IntToString(indent)
      && ParseInt(r[..|r| - 7]) == Some(indent)
  {
    var digits := IntToString(indent);
    IntToStringParses(indent);
    var r := digits + " spaces";
    assert r[..|r| - 7] == digits && r[|r| - 7..] == " spaces";
  }

  /**
    A line that is not a comment is cut at its first colon: the stripped part
    before it is the language and the stripped part after it is the mode.
  */
  lemma ReadLineSplit(line: string, a: string, b: string)
    requires !IsComment(line)
    requires Strip(line) == a + ":" + b && ':' !in a
    ensures ReadLine(line) == match IndentFromString(Strip(b))
      case Ok(indent) => Ok(Some((Strip(a), indent)))
      case Err(e) => Err(e)
  {
    SplitOnceAt(a, ':', b);
  }

  /** A written mode has no surrounding blanks and reads back as the normalized mode. */
  lemma FormatValueReadsBack(indent: int)
    ensures var value := FormatValue(indent);
      value != [] && Stripped(value) && IndentFromString(value) == Ok(Normalized(indent))
  {
    if indent > 0 {
      var value := IntToString(indent);
      IntToStringParses(indent);
      assert IsDigit(value[0]) && IsDigit(value[|value| - 1]);
    }
  }

  /** The line written for an entry strips to `lang:value` and is not a comment. */
  lemma FormatLineStrips(lang: string, indent: int)
    requires WellFormedLang(lang)
    ensures Strip(FormatLine(lang, indent)) == lang + ":" + FormatValue(indent)
    ensures !IsComment(FormatLine(lang, indent))
  {
    var value := FormatValue(indent);
    FormatValueReadsBack(indent);
    var core := lang + ":" + value;
    assert core[0] != '#' && !IsSpace(core[0]) by {
      if lang != [] { assert core[0] == lang[0]; } else { assert core[0] == ':'; }
    }
    assert core[|core| - 1] == value[|value| - 1];
    assert AllSpace("\n");
    StripAround([], core, "\n");
    assert [] + core + "\n" == FormatLine(lang, indent);
  }

  /**
    Reading back the line written for an entry gives the entry, except that a
    mode that is not positive comes back as TABS.
  */
  lemma ReadFormattedLine(lang: string, indent: int)
    requires WellFormedLang(lang)
    ensures ReadLine(FormatLine(lang, indent)) == Ok(Some((lang, Normalized(indent))))
  {
    var value := FormatValue(indent);
    FormatLineStrips(lang, indent);
    FormatValueReadsBack(indent);
    ReadLineSplit(FormatLine(lang, indent), lang, value);
    StrippedStrip(lang);
    StrippedStrip(value);
  }

  /** A parsed line that holds an entry for `lang`. */
  predicate Defines(p: Result<Option<Entry>, ParseError>, lang: string) {
    p.Ok? && p.value.Some? && p.value.value.0 == lang
  }

  /** The configuration line `line` holds an entry for `lang`. */
  predicate DefinesLang(line: string, lang: string) {
    Defines(ReadLine(line), lang)
  }

  lemma {:induction false} LoadEntriesLastWins(m: map<string, int>, parsed: seq<Result<Option<Entry>, ParseError>>, j: nat, lang: string, indent: int)
    requires j < |parsed| && parsed[j] == Ok(Some((lang, indent)))
    requires forall i :: j < i < |parsed| ==> !Defines(parsed[i], lang)
    ensures var r := LoadEntries(m, parsed); lang in r && r[lang] == indent
  {
    var init := parsed[..|parsed| - 1];
    if j < |parsed| - 1 {
      assert init[j] == parsed[j];
      LoadEntriesLastWins(m, init, j, lang, indent);
      assert !Defines(parsed[|parsed| - 1], lang);
    }
  }

  lemma {:induction false} LoadEntriesUntouched(m: map<string, int>, parsed: seq<Result<Option<Entry>, ParseError>>, lang: string)
    requires forall i :: 0 <= i < |parsed| ==> !Defines(parsed[i], lang)
    ensures var r := LoadEntries(m, parsed); (lang in r <==> lang in m) && (lang in m ==> r[lang] == m[lang])
  {
    if parsed != [] {
      var init := parsed[..|parsed| - 1];
      assert forall i :: 0 <= i < |init| ==> init[i] == parsed[i];
      LoadEntriesUntouched(m, init, lang);
      assert !Defines(parsed[|parsed| - 1], lang);
    }
  }

  lemma {:induction false} LoadEntriesSkips(m: map<string, int>, before: seq<Result<Option<Entry>, ParseError>>, skipped: Result<Option<Entry>, ParseError>, after: seq<Result<Option<Entry>, ParseError>>)
    requires skipped.Err? || skipped == Ok(None)
    ensures LoadEntries(m, before + [skipped] + after) == LoadEntries(m, before + after)
  {
    if after == [] {
      assert (before + [skipped] + after)[..|before|] == before;
      assert before + after == before;
    } else {
      var init := after[..|after| - 1];
      LoadEntriesSkips(m, before, skipped, init);
      assert (before + [skipped] + after)[..|before + [skipped] + after| - 1] == before + [skipped] + init;
      assert (before + after)[..|before + after| - 1] == before + init;
    }
  }

  /** Later lines win: the last line that configures `lang` gives its mode. */
  lemma LoadLinesLastWins(m: map<string, int>, lines: seq<string>, j: nat, lang: string, indent: int)
    requires j < |lines| && ReadLine(lines[j]) == Ok(Some((lang, indent)))
    requires forall i :: j < i < |lines| ==> !DefinesLang(lines[i], lang)
    ensures var r := LoadLines(m, lines); lang in r && r[lang] == indent
  {
    LoadEntriesLastWins(m, ParseLines(lines), j, lang, indent);
  }

  /** A language that no line configures keeps whatever the dictionary held before. */
  lemma LoadLinesUntouched(m: map<string, int>, lines: seq<string>, lang: string)
    requires forall i :: 0 <= i < |lines| ==> !DefinesLang(lines[i], lang)
    ensures var r := LoadLines(m, lines); (lang in r <==> lang in m) && (lang in m ==> r[lang] == m[lang])
  {
    LoadEntriesUntouched(m, ParseLines(lines), lang);
  }

  lemma ParseLinesAppend(a: seq<string>, b: seq<string>)
    ensures ParseLines(a + b) == ParseLines(a) + ParseLines(b)
  {
    var lhs, rhs := ParseLines(a + b), ParseLines(a) + ParseLines(b);
    forall i | 0 <= i < |a + b| ensures lhs[i] == rhs[i] {
      if i < |a| { assert (a + b)[i] == a[i]; } else { assert (a + b)[i] == b[i - |a|]; }
    }
  }

  /** A comment or a line that raises ValueError may be deleted without changing what is read. */
  lemma LoadLinesSkips(m: map<string, int>, before: seq<string>, skipped: string, after: seq<string>)
    requires ReadLine(skipped).Err? || ReadLine(skipped) == Ok(None)
    ensures LoadLines(m, before + [skipped] + after) == LoadLines(m, before + after)
  {
    ParseLinesAppend(before + [skipped], after);
    ParseLinesAppend(before, [skipped]);
    ParseLinesAppend(before, after);
    assert ParseLines([skipped]) == [ReadLine(skipped)];
    LoadEntriesSkips(m, ParseLines(before), ReadLine(skipped), ParseLines(after));
  }

  /** What reading back the lines written for `items` yields, line by line. */
  function ReadBack(items: seq<Entry>): (parsed: seq<Result<Option<Entry>, ParseError>>)
    ensures |parsed| == |items|
  {
    if items == [] then []
    else
      var last := items[|items| - 1];
      ReadBack(items[..|items| - 1]) + [Ok(Some((last.0, Normalized(last.1))))]
  }

  lemma {:induction false} ReadBackAt(items: seq<Entry>, i: nat)
    requires i < |items|
    ensures ReadBack(items)[i] == Ok(Some((items[i].0, Normalized(items[i].1))))
  {
    if i < |items| - 1 {
      ReadBackAt(items[..|items| - 1], i);
    }
  }

  /** The language ids of a list of entries. */
  function Langs(items: seq<Entry>): (langs: set<string>)
    ensures forall i :: 0 <= i < |items| ==> items[i].0 in langs
  {
    if items == [] then {} else Langs(items[..|items| - 1]) + {items[|items| - 1].0}
  }

  /** The entries of `m` for the languages in `langs`, normalized. */
  function NormalizedOn(m: map<string, int>, langs: set<string>): map<string, int> {
    map k | k in m && k in langs :: Normalized(m[k])
  }

  lemma NormalizedOnInsert(m: map<string, int>, langs: set<string>, lang: string)
    requires lang in m
    ensures NormalizedOn(m, langs + {lang}) == NormalizedOn(m, langs)[lang := Normalized(m[lang])]
  {
  }

  lemma UnionUpdate(a: map<string, int>, b: map<string, int>, k: string, v: int)
    ensures a + b[k := v] == (a + b)[k := v]
  {
  }

  /** Folding in the read-back entries taken from `m` adds exactly those entries, normalized. */
  lemma {:induction false} LoadReadBack(acc: map<string, int>, m: map<string, int>, items: seq<Entry>)
    requires forall i :: 0 <= i < |items| ==> items[i].0 in m && items[i].1 == m[items[i].0]
    ensures LoadEntries(acc, ReadBack(items)) == acc + NormalizedOn(m, Langs(items))
  {
    if items != [] {
      var init := items[..|items| - 1];
      var last := items[|items| - 1];
      LoadReadBack(acc, m, init);
      var entry := Ok(Some((last.0, Normalized(m[last.0]))));
      assert ReadBack(items) == ReadBack(init) + [entry];
      LoadEntriesAppend(acc, ReadBack(init), entry);
      NormalizedOnInsert(m, Langs(init), last.0);
      UnionUpdate(acc, NormalizedOn(m, Langs(init)), last.0, Normalized(m[last.0]));
    }
  }

  /** Reading the lines written for entries with well-formed language ids gives back those entries, normalized. */
  lemma ParseFormattedLines(items: seq<Entry>)
    requires forall i :: 0 <= i < |items| ==> WellFormedLang(items[i].0)
    ensures ParseLines(FormatLines(items)) == ReadBack(items)
  {
    var lines := FormatLines(items);
    forall i | 0 <= i < |items|
      ensures ReadLine(lines[i]) == Ok(Some((items[i].0, Normalized(items[i].1))))
    {
      FormatLinesAt(items, i);
      ReadBackAt(items, i);
      ReadFormattedLine(items[i].0, items[i].1);
    }
  }

  /** Each line of the written file reads back as the corresponding sorted entry, normalized. */
  lemma SerializeParses(m: map<string, int>)
    requires forall lang :: lang in m ==> WellFormedLang(lang)
    ensures ParseLines(Serialize(m)) == ReadBack(SortedItems(m))
  {
    ParseFormattedLines(SortedItems(m));
  }

  /** The sorted entries of `m` name every language of `m`. */
  lemma SortedItemsLangs(m: map<string, int>)
    ensures m.Keys <= Langs(SortedItems(m))
  {
    var items := SortedItems(m);
    SortedItemsCover(m);
    forall k | k in m ensures k in Langs(items) {
      var i :| 0 <= i < |items| && items[i] == (k, m[k]);
    }
  }

  lemma NormalizedOnAll(m: map<string, int>, langs: set<string>)
    requires m.Keys <= langs
    ensures NormalizedOn(m, langs) == Normalize(m)
  {
  }

  /**
    The round trip of the whole file: reading what `write` produced adds every
    entry of the dictionary, with modes that are not positive turned into TABS.
  */
  lemma ReloadSerialized(acc: map<string, int>, m: map<string, int>)
    requires forall lang :: lang in m ==> WellFormedLang(lang)
    ensures Load(acc, Some(Render(m))) == acc + Normalize(m)
  {
    var items := SortedItems(m);
    RenderSplits(m);
    SerializeParses(m);
    LoadReadBack(acc, m, items);
    SortedItemsLangs(m);
    NormalizedOnAll(m, Langs(items));
  }

  /** A dictionary of TABS and positive counts is read back exactly from the file `write` produced. */
  lemma ReloadSerializedExact(m: map<string, int>)
    requires forall lang :: lang in m ==> WellFormedLang(lang) && m[lang] >= 0
    ensures Load(map[], Some(Render(m))) == m
  {
    ReloadSerialized(map[], m);
    NormalizeNonNegative(m);
  }

  /** A dictionary of one entry is written as that entry's line. */
  lemma RenderSingle(lang: string, indent: int)
    ensures Render(map[lang := indent]) == FormatLine(lang, indent)
  {
    var m := map[lang := indent];
    assert m.Keys == {lang};
    var items := SortedItems(m);
    assert items[0].0 in m;
    FormatLinesAt(items, 0);
    var lines := [FormatLine(lang, indent)];
    assert Serialize(m) == lines;
    assert lines[1..] == [];
    assert Concat(lines) == lines[0] + Concat([]);
    assert lines[0] + [] == lines[0];
  }

  /** A non-empty well-formed id followed by a newline is a line without a colon. */
  lemma IdLineMalformed(a: string)
    requires WellFormedLang(a) && a != []
    ensures ReadLine(a + "\n") == Err(MalformedLine)
  {
    assert [] + a + "\n" == a + "\n";
    StripAround([], a, "\n");
  }

  lemma FormatLineAfterNewline(a: string, b: string, indent: int)
    ensures FormatLine(a + "\n" + b, indent) == Concat([a + "\n", FormatLine(b, indent)])
  {
    var first, second := a + "\n", FormatLine(b, indent);
    var value := FormatValue(indent);
    var lines := [first, second];
    assert lines[1..] == [second] && lines[1..][1..] == [];
    assert Concat(lines[1..]) == second + [];
    assert second + [] == second;
    assert a + "\n" + b + ":" + value + "\n" == first + (b + ":" + value + "\n");
  }

  /** The text written for the id `a` + newline + `b` splits into `a` and the line for `b`. */
  lemma SplitNewlineLang(a: string, b: string, indent: int)
    requires WellFormedLang(a) && WellFormedLang(b)
    ensures SplitLines(Render(map[a + "\n" + b := indent])) == [a + "\n", FormatLine(b, indent)]
  {
    var first := a + "\n";
    RenderSingle(a + "\n" + b, indent);
    assert first[..|first| - 1] == a;
    FormatLineAfterNewline(a, b, indent);
    SplitLinesConcat([first, FormatLine(b, indent)]);
  }

  /** A line that raises ValueError followed by a line holding an entry reads as that entry alone. */
  lemma LoadSkipThenEntry(first: string, second: string, e: Entry)
    requires ReadLine(first).Err? && ReadLine(second) == Ok(Some(e))
    ensures LoadLines(map[], [first, second]) == map[e.0 := e.1]
  {
    var lines := [first, second];
    var parsed := ParseLines(lines);
    assert lines[0] == first && lines[1] == second;
    assert |parsed| == 2 && parsed[0].Err? && parsed[1] == Ok(Some(e));
    LoadEntriesPair(parsed, e);
  }

  lemma LoadEntriesPair(parsed: seq<Result<Option<Entry>, ParseError>>, e: Entry)
    requires |parsed| == 2 && parsed[0].Err? && parsed[1] == Ok(Some(e))
    ensures LoadEntries(map[], parsed) == map[e.0 := e.1]
  {
    var empty: map<string, int> := map[];
    var first := parsed[..1];
    assert parsed[..|parsed| - 1] == first && first[..0] == [];
    assert LoadEntries(empty, []) == empty;
    assert LoadEntries(empty, first) == Insert(empty, parsed[0]) == empty;
  }

  /** Reading `a` + newline and then the line for `b` keeps only `b`. */
  lemma LoadNewlineLang(a: string, b: string, indent: int)
    requires WellFormedLang(a) && a != [] && WellFormedLang(b)
    ensures LoadLines(map[], [a + "\n", FormatLine(b, indent)]) == map[b := Normalized(indent)]
  {
    IdLineMalformed(a);
    ReadFormattedLine(b, indent);
    LoadSkipThenEntry(a + "\n", FormatLine(b, indent), (b, Normalized(indent)));
  }

  /**
    A language id `a` + newline + `b` is written across two lines: reading the
    file back loses the id, and `b` gets its mode instead.
  */
  lemma NewlineLangNotRestored(a: string, b: string, indent: int)
    requires WellFormedLang(a) && a != [] && WellFormedLang(b)
    ensures Load(map[], Some(Render(map[a + "\n" + b := indent]))) == map[b := Normalized(indent)]
  {
    SplitNewlineLang(a, b, indent);
    LoadNewlineLang(a, b, indent);
  }

  /** Normalizing changes nothing when every mode is TABS or a positive count. */
  lemma NormalizeNonNegative(m: map<string, int>)
    requires forall lang :: lang in m ==> m[lang] >= 0
    ensures map[] + Normalize(m) == m
  {
  }

  /** The module's state: the `settings` dictionary and the configuration file it mirrors. */
  class Store {
    var settings: map<string, int>
    /** The text of the configuration file, or None when it cannot be opened. */
    var file: Option<string>

    constructor (file: Option<string>)
      ensures settings == map[] && this.file == file
    {
      settings := map[];
      this.file := file;
    }

    /** `is_configured(lang)`: the language is among those `list_settings` lists. */
    function IsConfigured(lang: string): (configured: bool)
      reads this`settings
      ensures configured <==> exists i :: 0 <= i < |ListSettings()| && ListSettings()[i].0 == lang
    {
      assert lang in settings ==> exists i :: 0 <= i < |ListSettings()| && ListSettings()[i].0 == lang by {
        if lang in settings {
          var items := ListSettings();
          assert (lang, settings[lang]) in items;
          var i :| 0 <= i < |items| && items[i] == (lang, settings[lang]);
          assert items[i].0 == lang;
        }
      }
      lang in settings
    }

    /** `get(lang)`: the configured mode, or gedit's default for a language without one. */
    function Get(lang: string, insertSpaces: bool, tabsSize: nat): (mode: int)
      reads this`settings
      ensures IsConfigured(lang) ==> mode == settings[lang]
      ensures !IsConfigured(lang) ==> mode == DefaultMode(insertSpaces, tabsSize)
    {
      if lang in settings then settings[lang] else DefaultMode(insertSpaces, tabsSize)
    }

    /** `list_settings()`: every entry once, in ascending order of language id. */
    function ListSettings(): (items: seq<Entry>)
      reads this`settings
      ensures |items| == |settings|
      ensures forall i :: 0 <= i < |items| ==> items[i].0 in settings && items[i].1 == settings[items[i].0]
      ensures forall k :: k in settings ==> (k, settings[k]) in items
      ensures forall i, j :: 0 <= i < j < |items| ==> StrLess(items[i].0, items[j].0)
    {
      SortedItemsCover(settings);
      SortedItems(settings)
    }

    /** `read()`: merges the configuration file into the dictionary. */
    method Read()
      modifies this`settings
      ensures settings == Load(old(settings), file)
    {
      if file.None? {
        settings := settings[MAKEFILE := TABS];
        return;
      }
      ReadLines(SplitLines(file.value));
    }

    /** The loop of `read`: every line that holds an entry sets it, later lines overriding earlier ones. */
    method ReadLines(lines: seq<string>)
      modifies this`settings
      ensures settings == LoadLines(old(settings), lines)
    {
      for i := 0 to |lines|
        invariant settings == LoadLines(old(settings), lines[..i])
      {
        var keyValue := ReadLine(lines[i]);
        match keyValue {
          case Ok(Some((lang, indent))) => settings := settings[lang := indent];
          case _ =>
        }
        LoadLinesStep(old(settings), lines, i);
      }
      assert lines[..|lines|] == lines;
    }

    /** `write()`: replaces the configuration file with the dictionary's entries. */
    method Write()
      modifies this`file
      ensures file == Some(Render(settings))
    {
      var items := SortedItems(settings);
      var text := "";
      for i := 0 to |items|
        invariant text == Concat(FormatLines(items[..i]))
      {
        var indentS := FormatValue(items[i].1);
        var line := items[i].0 + ":" + indentS + "\n";
        FormatLinesStep(items, i);
        ConcatAppend(FormatLines(items[..i]), line);
        text := text + line;
      }
      assert items[..|items|] == items;
      file := Some(text);
    }

    /** `set(lang, indent)`: stores the mode for `lang` and rewrites the file. */
    method Set(lang: string, indent: int)
      modifies this
      ensures settings == old(settings)[lang := indent]
      ensures file == Some(Render(settings))
      ensures IsConfigured(lang)
      ensures forall insertSpaces, tabsSize :: Get(lang, insertSpaces, tabsSize) == indent
      ensures forall l :: l != lang ==> IsConfigured(l) == old(IsConfigured(l))
      ensures forall l, insertSpaces, tabsSize :: l != lang ==> Get(l, insertSpaces, tabsSize) == old(Get(l, insertSpaces, tabsSize))
    {
      settings := settings[lang := indent];
      Write();
    }

    /**
      `remove(lang)`: drops `lang` and rewrites the file. For a language that
      is not configured the dictionary raises KeyError before anything is
      written; `found` is false then and nothing changes.
    */
    method Remove(lang: string) returns (found: bool)
      modifies this
      ensures found == old(IsConfigured(lang))
      ensures found ==> settings == old(settings) - {lang} && file == Some(Render(settings))
      ensures !found ==> settings == old(settings) && file == old(file)
      ensures !IsConfigured(lang)
      ensures forall insertSpaces, tabsSize :: Get(lang, insertSpaces, tabsSize) == DefaultMode(insertSpaces, tabsSize)
      ensures forall l :: l != lang ==> IsConfigured(l) == old(IsConfigured(l))
      ensures forall l, insertSpaces, tabsSize :: l != lang ==> Get(l, insertSpaces, tabsSize) == old(Get(l, insertSpaces, tabsSize))
    {
      found := lang in settings;
      if !found {
        return;
      }
      settings := settings - {lang};
      Write();
    }
  }
}
