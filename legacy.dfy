/**
  The earlier single-file version of the plugin: a `Settings` object that
  holds the same dictionary, parses the same `lang:value` lines, and answers
  two classifying queries used when a view is activated.
*/
module LegacyPlugin {
  import opened Wrappers
  import opened Text
  import opened Numerals
  import opened IndentationSettings

  /** The kinds `indent_type` reports. */
  const KIND_TABS := 0
  const KIND_SPACES := 1

  /**
    `Settings.read_line`: the same format, with the `tabs` keyword tested
    inline before the value is parsed as an integer.
  */
  function LegacyReadLine(line: string): (r: Result<Option<Entry>, ParseError>)
    ensures r == Ok(None) <==> IsComment(line)
    ensures !IsComment(line) && ':' !in Strip(line) ==> r == Err(MalformedLine)
  {
    var t := Strip(line);
    if |t| > 0 && t[0] == '#' then Ok(None)
    else
      var parts := SplitOnce(t, ':');
      if |parts| != 2 then Err(MalformedLine)
      else
        var lang := Strip(parts[0]);
        var indentS := Strip(parts[1]);
        if indentS == "tabs" then Ok(Some((lang, 0)))
        else match ParseInt(indentS)
          case Some(indent) => Ok(Some((lang, indent)))
          case None => Err(NotAnInteger)
  }

  /** Both versions of the plugin read every line alike. */
  lemma LegacyReadLineAgrees(line: string)
    ensures LegacyReadLine(line) == ReadLine(line)
  {
    var t := Strip(line);
    if !(|t| > 0 && t[0] == '#') {
      var parts := SplitOnce(t, ':');
      if |parts| == 2 {
        var indentS := Strip(parts[1]);
        assert IndentFromString(indentS) == if indentS == "tabs" then Ok(0) else
          match ParseInt(indentS)
          case Some(indent) => Ok(indent)
          case None => Err(NotAnInteger);
      }
    }
  }

  class Settings {
    var settings: map<string, int>
    /** The text of the configuration file, or None when it cannot be opened. */
    var file: Option<string>

    constructor (file: Option<string>)
      ensures settings == map[] && this.file == file
    {
      settings := map[];
      this.file := file;
    }

    /**
      `read()`: without a file the dictionary is replaced by `makefile`
      with tabs; otherwise the file's entries are merged in, line by line.
    */
    method Read()
      modifies this`settings
      ensures file.None? ==> settings == map[MAKEFILE := 0]
      ensures file.Some? ==> settings == LoadLines(old(settings), SplitLines(file.value))
    {
      if file.None? {
        settings := map[MAKEFILE := 0];
        return;
      }
      var lines := SplitLines(file.value);
      for i := 0 to |lines|
        invariant settings == LoadLines(old(settings), lines[..i])
      {
        var keyValue := LegacyReadLine(lines[i]);
        LegacyReadLineAgrees(lines[i]);
        if keyValue.Ok? && keyValue.value.Some? {
          settings := settings[keyValue.value.value.0 := keyValue.value.value.1];
        }
        LoadLinesStep(old(settings), lines, i);
      }
      assert lines[..|lines|] == lines;
    }

    /** `is_configured(lang)`: exactly the languages `indent_type` gives a kind for. */
    function IsConfigured(lang: string): (configured: bool)
      reads this`settings
      ensures configured <==> IndentType(lang).Some?
    {
      lang in settings
    }

    /** `indent_len(lang)`: the number of spaces, for a language configured with a positive count. */
    function IndentLen(lang: string): (len: Option<int>)
      reads this`settings
      ensures len.Some? <==> lang in settings && settings[lang] > 0
      ensures len.Some? ==> len.value == settings[lang] && len.value > 0
    {
      if lang in settings && settings[lang] > 0 then Some(settings[lang]) else None
    }

    /** `indent_type(lang)`: tabs for a mode of zero or less, spaces for a positive one. */
    function IndentType(lang: string): (kind: Option<int>)
      reads this`settings
      ensures kind.None? <==> lang !in settings
      ensures kind == Some(KIND_TABS) <==> lang in settings && settings[lang] <= 0
      ensures kind == Some(KIND_SPACES) <==> lang in settings && settings[lang] > 0
    {
      if lang in settings then
        if settings[lang] <= 0 then Some(KIND_TABS) else Some(KIND_SPACES)
      else None
    }
  }

  /** The queries agree: the kind is spaces exactly when there is a length. */
  lemma QueriesAgree(s: Settings, lang: string)
    ensures s.IndentType(lang) == Some(KIND_SPACES) <==> s.IndentLen(lang).Some?
  {
  }

  /** The kind is tabs exactly when the current plugin would write the mode as `tabs`. */
  lemma KindMatchesWrittenValue(s: Settings, lang: string)
    requires s.IsConfigured(lang)
    ensures s.IndentType(lang) == Some(KIND_TABS) <==> FormatValue(s.settings[lang]) == "tabs"
  {
    var v := s.settings[lang];
    if v > 0 {
      assert IsDigit(FormatValue(v)[0]);
    }
  }
}
