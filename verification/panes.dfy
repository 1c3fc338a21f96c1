/** The configuration of one pane of the paned browser, built from the pane's
    row pattern `category:display`: which tags the pane lists, how it turns
    a song into rows, how it shows the collection behind a row, and whether
    its rows carry markup. */
module Panes {
  import opened Text
  import opened RowPattern

  datatype Option<T> = None | Some(value: T)

  /** The display used when the row pattern has none: the number of tracks,
      in dimmed italics. */
  const DefaultDisplay: string := "[i][span alpha='40%']<~#tracks>[/span][/i]"

  /** What a song or a collection gives for a tag: a float, or any other
      value by its `str`. */
  datatype Value = FloatValue(x: real) | OtherValue(text: string)

  /** A song as a pane reads it: `song(tag)` and `song.list_separate(tag)`. */
  datatype Song = Song(get: string -> Value, listSeparate: string -> seq<(string, string)>)

  /** A collection of songs as a pane's display reads it: `coll(tag)` and
      `coll.comma(tag)`. */
  datatype Collection = Collection(get: string -> Value, comma: string -> string)

  /** What the pane configuration calls but does not define; `P` is the type
      of a compiled markup pattern. */
  datatype Env<!P> = Env(
    timeTags: set<string>,                           // TIME_TAGS
    compile: string -> Option<P>,                    // XMLFromPattern(text), None when it raises ValueError
    emptyPattern: P,                                 // XMLFromPattern("")
    patternTags: P -> seq<string>,                   // pattern.tags
    formatList: (P, Song) -> seq<(string, string)>,  // pattern.format_list
    formatPattern: (P, Collection) -> string,        // pattern.format
    patternTitle: string -> string,                  // util.pattern(text, esc=True, markup=True)
    tagTitle: string -> string,                      // util.tag
    tagSplit: string -> seq<string>,                 // util.tagsplit
    escape: string -> string,                        // util.escape
    formatDate: (Value, string) -> string,           // format_date
    round2: real -> string                           // "%.2f" % x
  )

  /** How a pane turns a song into its rows, each a (display, sort) pair. */
  datatype RowFormat<P> =
    | PatternRows(pattern: P)   // the compiled category pattern's format_list
    | DateRows(tag: string)     // the song's date, formatted
    | NumericRows(tag: string)  // the song's number, rounded if a float
    | TagRows(tag: string)      // the song's separated tag values

  /** How a pane shows the collection of songs behind one of its rows. */
  datatype DisplayFormat<P> =
    | PatternDisplay(pattern: P)  // the compiled display pattern's format
    | NumericDisplay(tag: string) // the collection's number, rounded if a float
    | CommaDisplay(tag: string)   // the collection's comma-joined values, escaped

  /** The five fields `PaneConfig` sets. */
  datatype PaneConfig<P> = PaneConfig(
    title: string,
    tags: set<string>,
    format: RowFormat<P>,
    formatDisplay: DisplayFormat<P>,
    hasMarkup: bool)

  function Min(a: int, b: int): int
  {
    if a < b then a else b
  }

  /** `is_numeric`: `s[:2] == "~#"` and no `~` in `s[2:]`, with Python's
      slices clamped to the string. */
  function IsNumeric(s: string): (numeric: bool)
    ensures numeric <==> |s| >= 2 && s[0] == '~' && s[1] == '#' &&
                         forall i :: 2 <= i < |s| ==> s[i] != '~'
  {
    var cut := Min(2, |s|);
    s[..cut] == "~#" && '~' !in s[cut..]
  }

  /** `is_pattern`: the text holds a tag reference, that is a `<`. */
  predicate IsPattern(s: string): (pattern: bool)
    ensures pattern <==> exists i :: 0 <= i < |s| && s[i] == '<'
  {
    '<' in s
  }

  /** `is_date`. */
  predicate IsDate<P>(s: string, env: Env<P>)
  {
    s in env.timeTags
  }

  /** The compiled pattern, or the empty one when compiling fails. */
  function CompileOrEmpty<P>(text: string, env: Env<P>): P
  {
    match env.compile(text)
    case Some(p) => p
    case None => env.emptyPattern
  }

  /** `f_round` followed by `str`. */
  function Show<P>(v: Value, env: Env<P>): string
  {
    match v
    case FloatValue(x) => env.round2(x)
    case OtherValue(t) => t
  }

  function SetOf(xs: seq<string>): set<string>
  {
    set x | x in xs
  }

  /** The category: the first piece of the row pattern, unescaped. Escaped
      again, it is how the row starts, up to the end of the row or its first
      bare colon. */
  function Category(row: string): (cat: string)
    ensures Escape(cat) <= row && CutAt(row, |Escape(cat)|)
  {
    var raw := Split(row);
    JoinedPiecesCut(row, raw, 1);
    assert raw[..1] == [raw[0]];
    EscapeUnescape(raw[0]);
    Parts(row)[0]
  }

  /** The display: the second piece of the row pattern, unescaped, or the
      default when there is none; pieces after the second are ignored. When
      there is a second piece, the row starts with the escaped category, a
      colon and the escaped display, up to the end of the row or its second
      bare colon. */
  function Display(row: string): (disp: string)
    ensures BareColons(row) == 0 ==> disp == DefaultDisplay
    ensures BareColons(row) >= 1 ==>
      var start := Escape(Category(row)) + ":" + Escape(disp);
      start <= row && CutAt(row, |start|)
  {
    var parts := Parts(row);
    if |parts| >= 2 then
      SecondPieceStart(row);
      parts[1]
    else DefaultDisplay
  }

  /** With a second piece, the row starts with the first two pieces escaped
      and joined by a colon, up to where a piece ends. */
  lemma SecondPieceStart(row: string)
    requires BareColons(row) >= 1
    ensures var parts := Parts(row);
      var start := Escape(parts[0]) + ":" + Escape(parts[1]);
      start <= row && CutAt(row, |start|)
  {
    var raw := Split(row);
    JoinedPiecesCut(row, raw, 2);
    assert Join(raw[..2], ':') == raw[0] + ":" + raw[1] by {
      assert raw[..2][..1] == [raw[0]];
    }
    EscapeUnescape(raw[0]);
    EscapeUnescape(raw[1]);
  }

  /** The contract of `Category` determines it: any text that, escaped,
      starts the row up to where a piece ends is the category. */
  lemma CategoryUnique(row: string, cat: string)
    requires Escape(cat) <= row && CutAt(row, |Escape(cat)|)
    ensures cat == Category(row)
  {
    CutPrefixUnique(row, Escape(cat), Escape(Category(row)));
    UnescapeEscape(cat);
    UnescapeEscape(Category(row));
  }

  /** The pane configuration for a category and a display text. */
  function ConfigureFrom<P>(cat: string, disp: string, env: Env<P>): (c: PaneConfig<P>)
    ensures c.hasMarkup <==> c.format.PatternRows?
    ensures c.format.PatternRows? <==> IsPattern(cat)
    ensures c.format.DateRows? <==> !IsPattern(cat) && IsDate(cat, env)
    ensures c.format.NumericRows? <==> !IsPattern(cat) && !IsDate(cat, env) && IsNumeric(cat)
    ensures c.format.TagRows? <==> !IsPattern(cat) && !IsDate(cat, env) && !IsNumeric(cat)
    ensures !c.format.PatternRows? ==> c.format.tag == cat
    ensures c.format.PatternRows? ==> c.format.pattern == CompileOrEmpty(cat, env)
    ensures c.formatDisplay.PatternDisplay? <==> IsPattern(disp)
    ensures c.formatDisplay.NumericDisplay? <==> !IsPattern(disp) && IsNumeric(disp)
    ensures c.formatDisplay.CommaDisplay? <==> !IsPattern(disp) && !IsNumeric(disp)
    ensures !c.formatDisplay.PatternDisplay? ==> c.formatDisplay.tag == disp
    ensures c.formatDisplay.PatternDisplay? ==> c.formatDisplay.pattern == CompileOrEmpty(disp, env)
  {
    var formatDisplay :=
      if IsPattern(disp) then PatternDisplay(CompileOrEmpty(disp, env))
      else if IsNumeric(disp) then NumericDisplay(disp)
      else CommaDisplay(disp);
    if IsPattern(cat) then
      var pc := CompileOrEmpty(cat, env);
      PaneConfig(env.patternTitle(cat), SetOf(env.patternTags(pc)), PatternRows(pc), formatDisplay, true)
    else
      var format :=
        if IsDate(cat, env) then DateRows(cat)
        else if IsNumeric(cat) then NumericRows(cat)
        else TagRows(cat);
      PaneConfig(env.tagTitle(cat), SetOf(env.tagSplit(cat)), format, formatDisplay, false)
  }

  /** `PaneConfig(row_pattern)`. */
  function Configure<P>(row: string, env: Env<P>): (c: PaneConfig<P>)
    ensures c.hasMarkup <==> IsPattern(Category(row))
  {
    ConfigureFrom(Category(row), Display(row), env)
  }

  /** `format(song)`: the rows a song contributes to the pane. The date
      format is read from the configuration at each call. */
  function FormatSong<P>(f: RowFormat<P>, song: Song, dateFormat: string, env: Env<P>): (rows: seq<(string, string)>)
    ensures f.DateRows? || f.NumericRows? ==> |rows| == 1 && rows[0].0 == rows[0].1
  {
    match f
    case PatternRows(p) => env.formatList(p, song)
    case DateRows(tag) =>
      var d := env.formatDate(song.get(tag), dateFormat);
      [(d, d)]
    case NumericRows(tag) =>
      var v := Show(song.get(tag), env);
      [(v, v)]
    case TagRows(tag) => song.listSeparate(tag)
  }

  /** `format_display(coll)`: how the pane shows the songs behind a row. */
  function FormatDisplay<P>(f: DisplayFormat<P>, coll: Collection, env: Env<P>): string
  {
    match f
    case PatternDisplay(p) => env.formatPattern(p, coll)
    case NumericDisplay(tag) => Show(coll.get(tag), env)
    case CommaDisplay(tag) => env.escape(coll.comma(tag))
  }

  /** A category that is both a time tag and numeric, such as a timestamp
      tag, is shown as a date: the date test comes first. This follows
      directly from the order of the tests in `ConfigureFrom`. */
  lemma DateBeforeNumeric<P>(cat: string, disp: string, env: Env<P>)
    requires !IsPattern(cat) && IsDate(cat, env) && IsNumeric(cat)
    ensures ConfigureFrom(cat, disp, env).format == DateRows(cat)
    ensures !ConfigureFrom(cat, disp, env).hasMarkup
  {
  }

  /** A pattern category gives a song the rows of its compiled pattern; a
      date or numeric category gives each song exactly one row, whose
      display and sort texts agree; a plain tag category gives the song's
      separated values. */
  lemma RowsOfSong<P>(row: string, env: Env<P>, song: Song, dateFormat: string)
    ensures var cat, c := Category(row), Configure(row, env);
      var rows := FormatSong(c.format, song, dateFormat, env);
      (IsPattern(cat) ==> rows == env.formatList(CompileOrEmpty(cat, env), song)) &&
      (!IsPattern(cat) && (IsDate(cat, env) || IsNumeric(cat)) ==>
         |rows| == 1 && rows[0].0 == rows[0].1) &&
      (!IsPattern(cat) && !IsDate(cat, env) && !IsNumeric(cat) ==>
         rows == song.listSeparate(cat))
  {
  }

  /** A category or display pattern that does not compile never makes the
      configuration fail: the empty pattern takes its place. */
  lemma CompileFailureFallsBack<P>(row: string, env: Env<P>)
    ensures var cat, disp, c := Category(row), Display(row), Configure(row, env);
      (IsPattern(cat) && env.compile(cat).None? ==>
         c.format == PatternRows(env.emptyPattern) &&
         c.tags == SetOf(env.patternTags(env.emptyPattern)) && c.hasMarkup) &&
      (IsPattern(disp) && env.compile(disp).None? ==>
         c.formatDisplay == PatternDisplay(env.emptyPattern))
  {
  }

  /** A row pattern without a bare colon is all category, with its escaped
      colons restored, and the pane shows the default display, a pattern. */
  lemma NoSeparatorUsesDefaultDisplay<P>(row: string, env: Env<P>)
    requires BareColons(row) == 0
    ensures Category(row) == Unescape(row)
    ensures Display(row) == DefaultDisplay
    ensures Configure(row, env).formatDisplay == PatternDisplay(CompileOrEmpty(DefaultDisplay, env))
  {
    SplitWithoutBareColon(row);
    DefaultDisplayIsPattern(Category(row), env);
  }

  /** The default display is a pattern. */
  lemma DefaultDisplayIsPattern<P>(cat: string, env: Env<P>)
    ensures ConfigureFrom(cat, DefaultDisplay, env).formatDisplay == PatternDisplay(CompileOrEmpty(DefaultDisplay, env))
  {
    assert DefaultDisplay[21] == '<';
  }

  /** Only the first two pieces of a row pattern matter: cutting the row at
      its second bare colon gives the same configuration. */
  lemma ExtraPiecesIgnored<P>(row: string, env: Env<P>)
    requires BareColons(row) >= 2
    ensures Configure(Join(Split(row)[..2], ':'), env) == Configure(row, env)
  {
    var raw := Split(row);
    var two := raw[..2];
    var short := Join(two, ':');
    assert Split(short) == two by {
      assert Pieces(two) by {
        assert forall k :: 0 <= k < 2 ==> two[k] == raw[k];
      }
      SplitUnique(short, two);
    }
    assert Parts(short) == Parts(row)[..2];
    assert Category(short) == Category(row) && Display(short) == Display(row);
  }

  /** A row written by escaping a category and a display and joining them
      with a colon configures the pane from exactly that category and
      display, unless the category ends with a backslash. */
  lemma EscapedRowRoundTrip<P>(cat: string, disp: string, env: Env<P>)
    requires !EndsWithBackslash(cat)
    ensures Configure(Escape(cat) + ":" + Escape(disp), env) == ConfigureFrom(cat, disp, env)
  {
    var es := EscapeAll([cat, disp]);
    assert Join(es, ':') == Escape(cat) + ":" + Escape(disp) by {
      assert es[..1] == [Escape(cat)];
    }
    PartsOfEscaped([cat, disp]);
  }

  /** A row holding only an escaped category gets the default display. */
  lemma EscapedCategoryRoundTrip<P>(cat: string, env: Env<P>)
    ensures Configure(Escape(cat), env) == ConfigureFrom(cat, DefaultDisplay, env)
  {
    PartsOfEscaped([cat]);
    assert Join(EscapeAll([cat]), ':') == Escape(cat);
  }

  /** `~#length` is numeric; a second `~` or a string shorter than the
      `~#` prefix is not. */
  lemma NumericExamples()
    ensures IsNumeric("~#length")
    ensures !IsNumeric("~#length~dummy")
    ensures !IsNumeric("~") && !IsNumeric("")
  {
    assert "~#length~dummy"[8] == '~';
  }

  /** The pane's tags are exactly the tags its category names: those of the
      compiled category pattern, or the split tag otherwise; and the title
      comes from the same source. The configuration only passes these on
      from code outside this model, so this records where each comes
      from. */
  lemma TagsOfRow<P>(row: string, env: Env<P>)
    ensures var cat, c := Category(row), Configure(row, env);
      (IsPattern(cat) ==>
         c.title == env.patternTitle(cat) &&
         forall t :: t in c.tags <==> t in env.patternTags(CompileOrEmpty(cat, env))) &&
      (!IsPattern(cat) ==>
         c.title == env.tagTitle(cat) &&
         forall t :: t in c.tags <==> t in env.tagSplit(cat))
  {
  }

  /** How a pane shows the songs behind a row (`FormatDisplay`) follows the
      display text: through the compiled display pattern when it holds a tag
      reference, as the collection's rounded number when it is numeric, and
      as the escaped comma-joined values otherwise. The rendering itself is
      done by code outside this model, so this records which of it is
      called. */
  lemma DisplayOfRow<P>(row: string, env: Env<P>, coll: Collection)
    ensures var disp := Display(row);
      var shown := FormatDisplay(Configure(row, env).formatDisplay, coll, env);
      (IsPattern(disp) ==> shown == env.formatPattern(CompileOrEmpty(disp, env), coll)) &&
      (!IsPattern(disp) && IsNumeric(disp) ==> shown == Show(coll.get(disp), env)) &&
      (!IsPattern(disp) && !IsNumeric(disp) ==> shown == env.escape(coll.comma(disp)))
  {
  }

  /** A pattern that compiles is kept: a pattern category lists and formats
      with its own compiled pattern, and a pattern display shows through its
      own compiled pattern. With `CompileFailureFallsBack`, this covers both
      outcomes of compiling. */
  lemma CompiledPatternKept<P>(cat: string, disp: string, env: Env<P>, p: P)
    ensures var c := ConfigureFrom(cat, disp, env);
      (IsPattern(cat) && env.compile(cat) == Some(p) ==>
         c.format == PatternRows(p) && c.tags == SetOf(env.patternTags(p))) &&
      (IsPattern(disp) && env.compile(disp) == Some(p) ==>
         c.formatDisplay == PatternDisplay(p))
  {
  }

  /** A category without a tag reference is configured as a date exactly
      when it is one of the time tags, whatever else it is. */
  lemma DateCategories<P>(cat: string, disp: string, env: Env<P>)
    requires '<' !in cat
    ensures ConfigureFrom(cat, disp, env).format == DateRows(cat) <==> cat in env.timeTags
  {
  }

  /** A numeric category and a numeric display show a value the same way: a
      float rounded to two places, anything else by its text. A song's row
      text for a numeric tag is the display text of a collection that has
      the same value for that tag. */
  lemma NumericShownAlike<P>(tag: string, song: Song, coll: Collection, dateFormat: string, env: Env<P>)
    requires song.get(tag) == coll.get(tag)
    ensures var shown := FormatDisplay(NumericDisplay(tag), coll, env);
      FormatSong(NumericRows(tag), song, dateFormat, env) == [(shown, shown)]
    ensures var shown := FormatDisplay(NumericDisplay(tag), coll, env);
      (coll.get(tag).FloatValue? ==> shown == env.round2(coll.get(tag).x)) &&
      (coll.get(tag).OtherValue? ==> shown == coll.get(tag).text)
  {
  }
}
