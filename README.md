# Indentation settings for gedit, modelled in Dafny

The gedit "indentation settings" plugin remembers, per source language, how
a buffer should be indented: with tabs, or with a given number of spaces.
The core of the plugin is a dictionary from language id to indentation mode
(`TABS` = 0, or a positive number of spaces). It is loaded from and saved to
a small text file of `lang:value` lines, where `value` is `tabs` or a
number and `#` starts a comment line. A lookup falls back to gedit's own
preference when a language is not configured.

The project models both versions of this core:

* `settings.dfy`, module `IndentationSettings`, models the current plugin's
  settings module (`indentation_settings/settings.py`):
  * the value conversions, the line parser and the file format;
  * the module-level dictionary together with the file, as the class
    `Store`, with `Read`, `Write`, `Set`, `Remove`, `Get`, `IsConfigured`
    and `ListSettings`.
* `legacy.dfy`, module `LegacyPlugin`, models the earlier single-file plugin
  (`indentation_settings.py`):
  * its class `Settings`, with its own `read`, `read_line`,
    `is_configured`, `indent_len` and `indent_type`.
* Support modules model the Python 2 built-ins the core relies on. Both
  versions run on Python 2, where file lines are byte strings; a `char` of
  the model stands for one byte.
  * `Text`: `isspace` and `strip()` on byte strings (the six ASCII white-space
    characters), `split(":", 1)`, and the lines that `for line in f` yields;
  * `Numerals`: Python 2's `int(...)` in base 10, and `str(n)`;
  * `Ordering`: the ordering of `str` and `sorted` over a dictionary's keys;
  * `Wrappers`: `Option` and `Result`.

The configuration file is modelled as its text. `write` produces the text
line by line. `read` cuts it into lines the way iterating over a file opened
in text mode does on POSIX systems: after every `\n`. `None` stands for a
file that cannot be opened. A `ValueError` raised by the parser is an
`Err` result. gedit's `insert-spaces` and `tabs-size` preferences are passed
to `Get` and `DefaultMode` as parameters.

The main results:

* A line the plugin writes reads back as the entry it came from when the
  language id is well formed, with a mode of zero or less coming back as
  `TABS` (`ReadFormattedLine`).
* Reading a written file restores the dictionary when every language id is
  well formed: no colon, no newline, no surrounding white space and no
  leading `#` (`ReloadSerialized`, `ReloadSerializedExact`). A mode of zero
  or less is written as `tabs`, so it comes back as `TABS`.
* An id holding a newline is written across two lines and is lost on
  reading (`NewlineLangNotRestored`).
* The `read` loop obeys "the last definition wins". It leaves languages the
  file does not mention alone, and it skips comments and malformed lines
  (`LoadLinesLastWins`, `LoadLinesUntouched`, `LoadLinesSkips`).
* `set` changes one language only and rewrites the file. `remove` does the
  same for a configured language; for any other language it raises
  KeyError and changes nothing, not even the file.
* The legacy parser and the current one agree on every line
  (`LegacyReadLineAgrees`).

## Model

| member | source | states |
|---|---|---|
| IndentationSettings.IndentToString | indentation_settings/settings.py:40-44 | the text is `tabs` exactly when the mode is TABS |
| IndentationSettings.IndentToStringSpaces | indentation_settings/settings.py:40-44 | for any other mode the text is `str(indent)`, the plain decimal of IntToString, followed by ` spaces`, and that part parses back as the mode |
| IndentationSettings.IndentFromString | indentation_settings/settings.py:46-55 | `tabs` gives TABS; any other text gives a mode exactly when `int` accepts it, and that mode is `int`'s value; otherwise a ValueError |
| IndentationSettings.ReadLine | indentation_settings/settings.py:78-88 | a line is skipped (None) exactly when its stripped text starts with `#`; a non-comment line without a colon is malformed; from a line with no inner newline, a parsed language id is well formed (no colon, no newline, no surrounding blanks, no leading `#`) |
| IndentationSettings.ReadLineSplit | indentation_settings/settings.py:78-88 | a non-comment line is cut at its first colon: the stripped left part is the language and the stripped right part is read by indent_from_string, whose error is passed on |
| IndentationSettings.FormatValue | indentation_settings/settings.py:75 | the value is `tabs` exactly for a mode of zero or less; a positive mode is written as its plain decimal: digits with no leading zero whose value is the mode |
| IndentationSettings.FormatLine | indentation_settings/settings.py:76 | the line written for an entry is one complete line (a single `\n`, at its end) when the language id holds no newline |
| IndentationSettings.FormatValueReadsBack | indentation_settings/settings.py:72-76 | the value write produces (`str(indent)` if positive, else `tabs`) is non-empty and unpadded, and indent_from_string maps it back to the mode, with modes of zero or less mapped to TABS |
| IndentationSettings.FormatLineStrips | indentation_settings/settings.py:72-76 | a written line strips to `lang:value` and is not a comment |
| IndentationSettings.ReadFormattedLine | indentation_settings/settings.py:72-88 | read_line applied to a line that write produced gives back the language and its normalized mode |
| IndentationSettings.SortedItems | indentation_settings/settings.py:74 | `sorted(settings.items())` has one item per key, each item is a key with its value, and the keys strictly ascend |
| IndentationSettings.SortedItemsCover | indentation_settings/settings.py:74 | every key-value pair of the dictionary appears among the sorted items |
| IndentationSettings.FormatLinesAt | indentation_settings/settings.py:74-76 | the i-th written line is the line for the i-th sorted item |
| IndentationSettings.Serialize | indentation_settings/settings.py:72-76 | the file holds one line per configured language |
| IndentationSettings.SerializeOrder | indentation_settings/settings.py:74-76 | of two written lines, the earlier one belongs to the language that sorts first |
| IndentationSettings.SerializeLines | indentation_settings/settings.py:72-76 | with newline-free ids every written line is a complete line |
| IndentationSettings.RenderSplits | indentation_settings/settings.py:64-76 | iterating over the text write produced yields exactly the lines it wrote |
| IndentationSettings.ParseLinesAppend | indentation_settings/settings.py:64-66 | read_line is applied to each line in order (ParseLines): parsing a file in two parts equals parsing it whole |
| IndentationSettings.LoadLines | indentation_settings/settings.py:64-70 | read's loop never drops a language already in the dictionary |
| IndentationSettings.Load | indentation_settings/settings.py:57-70 | read never drops a language; without a file, exactly `makefile` is added, with TABS, and every other language keeps its mode |
| IndentationSettings.LoadLinesStep | indentation_settings/settings.py:64-70 | one pass of read's loop stores a parsed entry and leaves the dictionary alone for a comment or a ValueError |
| IndentationSettings.LoadLinesLastWins | indentation_settings/settings.py:64-70 | after read, a language has the mode of the last line that defines it |
| IndentationSettings.LoadLinesUntouched | indentation_settings/settings.py:64-70 | a language that no line defines keeps its presence and mode through read |
| IndentationSettings.LoadLinesSkips | indentation_settings/settings.py:64-70 | removing a comment or a malformed line from the file does not change what read produces |
| IndentationSettings.DefaultMode | indentation_settings/settings.py:93-97 | the fallback mode is never negative; it is TABS exactly when gedit does not insert spaces or its tab size is 0, and otherwise it is gedit's tab size |
| IndentationSettings.ReloadSerialized | indentation_settings/settings.py:57-88 | reading the text that write produced into a dictionary overrides it with every written language, each with its normalized mode (Normalize: the mode FormatValueReadsBack shows the written value reads back as), when all ids are well formed |
| IndentationSettings.ReloadSerializedExact | indentation_settings/settings.py:57-88 | with well-formed language ids and non-negative modes, reading the written text into an empty dictionary restores the dictionary exactly |
| IndentationSettings.NewlineLangNotRestored | indentation_settings/settings.py:64-88 | an id `a` + newline + `b` is written across two lines: the first raises ValueError and is skipped, so reading back gives `b` the mode and loses the id |
| IndentationSettings.ParseFormattedLines | indentation_settings/settings.py:72-88 | every line of a written file parses to its item with the normalized mode |
| IndentationSettings.SerializeParses | indentation_settings/settings.py:72-88 | parsing the written file gives the sorted items with normalized modes, in order |
| IndentationSettings.LoadReadBack | indentation_settings/settings.py:64-70 | loading the parsed entries of a sequence of items adds those languages with normalized modes |
| IndentationSettings.SortedItemsLangs | indentation_settings/settings.py:74 | every key of the dictionary is a language of the sorted items |
| IndentationSettings.Store.constructor | indentation_settings/settings.py:34-36 | the settings dictionary starts empty |
| IndentationSettings.Store.IsConfigured | indentation_settings/settings.py:90-91 | a language is configured exactly when list_settings lists it |
| IndentationSettings.Store.Get | indentation_settings/settings.py:99-103 | a configured language gives its stored mode; any other gives the default mode |
| IndentationSettings.Store.ListSettings | indentation_settings/settings.py:114-119 | lists every configured pair exactly once, nothing else, in ascending language order |
| IndentationSettings.Store.Read | indentation_settings/settings.py:57-70 | a missing file adds `makefile` with TABS to the dictionary; otherwise every line of the text is loaded in order, as Load |
| IndentationSettings.Store.ReadLines | indentation_settings/settings.py:64-70 | the loop over the lines: each line `read_line` turns into an entry sets that entry, comments and lines raising ValueError change nothing, as LoadLines |
| IndentationSettings.Store.Write | indentation_settings/settings.py:72-76 | the file's text becomes the sorted `lang:value` lines of the dictionary, one after the other |
| IndentationSettings.Store.Set | indentation_settings/settings.py:105-107 | the language gets the mode, the file is rewritten, and every other language keeps its configuration and lookup result |
| IndentationSettings.Store.Remove | indentation_settings/settings.py:109-112 | a configured language is deleted and the file rewritten, after which lookups give the default; an unconfigured language raises KeyError (found = false) and nothing changes |
| Text.IsSpace | indentation_settings/settings.py:79 | white space is exactly space, tab, newline, vertical tab, form feed and carriage return |
| Text.Strip | indentation_settings/settings.py:79 | the result has no leading or trailing whitespace and only characters of the input |
| Text.StripAround | indentation_settings/settings.py:79 | stripping removes exactly the surrounding whitespace of an unpadded core |
| Text.SplitOnce | indentation_settings/settings.py:82 | one part exactly when there is no colon, in which case it is the input; otherwise two parts around the first colon |
| Text.SplitOnceAt | indentation_settings/settings.py:82 | splitting `a:b` where `a` has no colon gives `a` and `b` |
| Text.SplitLines | indentation_settings/settings.py:64 | the lines put back together are the text; every line but the last ends in its only `\n`, and no line is empty |
| Text.SplitLinesConcat | indentation_settings/settings.py:64 | splitting the text of complete lines gives those lines back |
| Numerals.ParseInt | indentation_settings/settings.py:55 | succeeds exactly on white space, an optional sign, white space after a sign, digits and white space; the values are fixed by ParseDigits and ParseIntLiteral |
| Numerals.ParseDigits | indentation_settings/settings.py:55 | a plain run of digits is accepted as it is and gives its decimal value |
| Numerals.ParseIntLiteral | indentation_settings/settings.py:55 | every accepted literal has the value of its digits, negated after a minus, whatever the zeros, signs and white space around them |
| Numerals.LeadingZeros | indentation_settings/settings.py:55 | leading zeros do not change the value of a numeral |
| Numerals.IntToString | indentation_settings/settings.py:75 | `str(n)` is a minus exactly for a negative number, followed by the decimal digits of its magnitude with no leading zero (only `0` itself starts with `0`) |
| Numerals.IntToStringParses | indentation_settings/settings.py:75 | `int(str(n)) == n` for every integer |
| Ordering.StrLess | indentation_settings/settings.py:74 | no string is less than itself |
| Ordering.SortedKeys | indentation_settings/settings.py:74 | the keys in strictly ascending order, each exactly once |
| Ordering.StrLessTransitive | indentation_settings/settings.py:74 | the string order used by sorted is transitive |
| Ordering.StrLessTotal | indentation_settings/settings.py:74 | any two distinct strings are ordered one way |
| LegacyPlugin.LegacyReadLine | indentation_settings.py:50-63 | a line is skipped exactly when it is a comment, and a non-comment line without a colon is malformed |
| LegacyPlugin.LegacyReadLineAgrees | indentation_settings.py:50-63 | the legacy parser gives the same result as the current read_line on every line |
| LegacyPlugin.Settings.constructor | indentation_settings.py:31-34 | the settings dictionary starts empty |
| LegacyPlugin.Settings.Read | indentation_settings.py:36-48 | a missing file replaces the dictionary by `makefile` with TABS; otherwise every line of the text is loaded in order, as in the current plugin |
| LegacyPlugin.Settings.IsConfigured | indentation_settings.py:65-66 | a language is configured exactly when indent_type gives it a kind |
| LegacyPlugin.Settings.IndentLen | indentation_settings.py:68-72 | a length exactly for a language configured with a positive mode, and that mode |
| LegacyPlugin.Settings.IndentType | indentation_settings.py:74-81 | no kind exactly for an unconfigured language; TABS for a mode of zero or less, SPACES for a positive one |
| LegacyPlugin.QueriesAgree | indentation_settings.py:68-81 | the type is SPACES exactly when there is a length |
| LegacyPlugin.KindMatchesWrittenValue | indentation_settings.py:74-81 | a configured language is of kind TABS exactly when the current plugin would write its mode as `tabs` |

## Left out

- The preferences dialog (`indentation_settings/dialog.py`), the GTK widgets, and the plugin activation classes in both versions are not part of this model. This covers `apply_settings` and the GObject activatables; they call the operations modelled here.
- File I/O is not modelled. The configuration path, opening, reading and writing are replaced by a `file` field holding the file's text, with `None` for a file that cannot be opened. Text-mode newline translation on platforms other than POSIX is not modelled.
- gedit's `Gio.Settings` is not modelled. The `insert-spaces` and `tabs-size` preferences are parameters of `Get` and `DefaultMode`.
- Numerals.ParseInt: integers are unbounded, so Python 2's switch from `int` to `long` for large values is not modelled.
- IndentationSettings.Store.Remove: `del` of an unconfigured language raises KeyError before `write()`. This is modelled as the result `found = false` with nothing changed, not as an exception.
- IndentationSettings.ReloadSerialized: requires language ids without colons, newlines, surrounding blanks or a leading `#`. Ids that break these rules are written by the plugin but do not read back as themselves; `NewlineLangNotRestored` shows this for newlines.
- IndentationSettings.Store: it stands for the module-level `settings` dictionary and file. Python's module-global state is not modelled beyond this.
- The legacy `read_line` is a method of `Settings` that uses no object state. It is modelled as the module-level function `LegacyReadLine`.
