# Paned browser row patterns and pane headers

This project models how Quod Libet's paned browser configures its panes.
Each pane has a *row pattern* of the form `category:display`.

- The row pattern is cut at every colon that is not preceded by a
  backslash. Inside each piece, `\:` then stands for a literal colon.
- The first piece is the *category*. It decides which rows a song adds to
  the pane. It is a markup pattern if it holds `<`. Otherwise it is a date
  tag, if it is one of the time tags. Otherwise it is a numeric tag
  (`~#…` with no further `~`). Otherwise it is a plain tag.
- The second piece is the *display*. It decides how the pane shows the
  songs behind a row. When it is missing, the display is the dimmed track
  count.
- Compiling a pattern never lets `ValueError` out of the constructor: a
  pattern that does not compile is replaced by the empty pattern.
  `util.pattern`, which titles a pattern category, is taken to be total.
- The list of row patterns, one per pane, is stored as a single
  tab-separated string. The space-separated default of old releases is
  still read correctly.

The model has four modules:

- `Text` (`text.dfy`) models Python's `sep.join`, `str.split(sep)` and
  `str.split()`.
- `RowPattern` (`row_pattern.dfy`) models the split at bare colons and the
  unescaping. It also has the escaping a user applies, which is the
  inverse of the unescaping.
- `Panes` (`panes.dfy`) models `PaneConfig`. It is a function from a row
  pattern to a record with the five fields the constructor sets. The
  closures that the constructor stores for `format` and `format_display`
  become datatypes (`RowFormat`, `DisplayFormat`), and `FormatSong` and
  `FormatDisplay` interpret them.
- `Headers` (`headers.dfy`) models `get_headers` and `save_headers`.

Code the module calls but does not define enters the model in three ways:

- the fields of an `Env<P>` record, where `P` is the type of a compiled
  pattern: pattern compilation (`None` means `ValueError`), `util.pattern`,
  `util.tag`, `util.tagsplit`, `util.escape`, `format_date`, `"%.2f"`
  formatting and `TIME_TAGS`;
- the `Song` and `Collection` records: `song(tag)` and
  `song.list_separate(tag)` are the fields of `Song`, `coll(tag)` and
  `coll.comma(tag)` those of `Collection`;
- the `dateFormat` parameter of `FormatSong`, which stands for the
  `config.gettext` lookup of the date format.

The split at bare colons is specified by a characterisation, `SplitsInto`.
It has three parts:

- the pieces join back to the row with colons;
- no piece holds a colon that is not escaped;
- no piece before the last ends with a backslash.

`SplitUnique` proves that this characterisation determines the pieces. The
round trips are derived from that proof.

## Model

| member | source | states |
|---|---|---|
| `RowPattern.Split` | quodlibet/browsers/paned/util.py:33-34 | The row is cut exactly at colons not preceded by a backslash. There are as many pieces as such colons plus one, so there is always at least one. The pieces join back to the row with colons. No piece holds an unescaped colon. No piece before the last ends with a backslash. |
| `RowPattern.SplitUnique` | quodlibet/browsers/paned/util.py:33-34 | Any list of pieces with those three properties is the split, so the characterisation is complete. |
| `RowPattern.SplitWithoutBareColon` | quodlibet/browsers/paned/util.py:33-34 | A row without an unescaped colon is a single piece: the whole row. |
| `RowPattern.Unescape` | quodlibet/browsers/paned/util.py:33 | `replace("\:", ":")` never lengthens a piece. It leaves a piece with no `\:` unchanged. |
| `RowPattern.Escape` | quodlibet/browsers/paned/util.py:22-30 | Escaping every colon as `\:` leaves no unescaped colon. It keeps the last character and never starts with a colon. |
| `RowPattern.UnescapeEscape` | quodlibet/browsers/paned/util.py:27-34 | Unescaping undoes escaping for every text, including texts that hold backslashes. |
| `RowPattern.EscapeUnescape` | quodlibet/browsers/paned/util.py:33-34 | On a text whose colons are all escaped, such as any piece of the split, escaping undoes unescaping. So unescaping a piece loses nothing. |
| `RowPattern.Parts` | quodlibet/browsers/paned/util.py:33-34 | There is one unescaped piece per unescaped colon, plus one. |
| `RowPattern.PartsOfEscaped` | quodlibet/browsers/paned/util.py:22-34 | Escaping some texts and joining them with colons gives a row that reads back as exactly those texts, provided no text but the last ends with a backslash. |
| `RowPattern.TrailingBackslashSwallowsSeparator` | quodlibet/browsers/paned/util.py:27-34 | A category ending in a backslash escapes the colon after it. For every such category `cat` and every display `disp`, the row written as escaped `cat`, a colon and escaped `disp` has no unescaped colon. It reads back as one piece: `cat` without its final backslash, a literal colon, then `disp`. |
| `Panes.IsPattern` | quodlibet/browsers/paned/util.py:37 | `is_pattern` holds iff some character of the text is `<`. |
| `Panes.IsNumeric` | quodlibet/browsers/paned/util.py:36 | `is_numeric` holds iff the text has at least two characters, starts with `~#`, and has no `~` from index 2 on. |
| `Panes.NumericExamples` | quodlibet/browsers/paned/util.py:36 | `~#length` is numeric. `~#length~dummy`, `~` and the empty string are not. |
| `Panes.ConfigureFrom` | quodlibet/browsers/paned/util.py:47-90 | The category kind follows this precedence: pattern (holds `<`), then date (a time tag), then numeric, then plain tag. A non-pattern kind keeps the category as its tag. `has_markup` holds exactly for the pattern kind. A pattern category stores the category's compiled pattern, or the empty pattern if compiling fails. The display kind follows this precedence: pattern, then numeric, then comma-joined. A pattern display stores the display's compiled pattern, or the empty one. A non-pattern display keeps the display text as its tag. |
| `Panes.Category` | quodlibet/browsers/paned/util.py:43-45 | The category is the first piece, unescaped. Escaped again, it is a prefix of the row that ends at the end of the row or at an unescaped colon. |
| `Panes.CategoryUnique` | quodlibet/browsers/paned/util.py:43-45 | Every text whose escaped form is such a prefix (ending at the row's end or at an unescaped colon) is the category, so the property above determines it. |
| `Panes.Display` | quodlibet/browsers/paned/util.py:43-45 | A row without an unescaped colon has the default display. Otherwise the row starts with the escaped category, a colon and the escaped display, and that start ends at the end of the row or at the next unescaped colon. So the display is the unescaped second piece. |
| `Panes.FormatSong` | quodlibet/browsers/paned/util.py:61-72 | The `format` closures of a date or numeric category give exactly one row, whose display and sort texts are equal. |
| `Panes.CompiledPatternKept` | quodlibet/browsers/paned/util.py:47-79 | When a category or display pattern compiles, the pane keeps that compiled pattern: the category's rows and tags come from it, and the display shows through it. |
| `Panes.DateCategories` | quodlibet/browsers/paned/util.py:40-41 | A category without `<` is configured as a date exactly when it is one of the time tags. |
| `Panes.NumericShownAlike` | quodlibet/browsers/paned/util.py:38 | `str(f_round(v))` shows a float rounded to two places and any other value by its text. A numeric category's one row and a numeric display show the same value identically. |
| `Panes.Configure` | quodlibet/browsers/paned/util.py:32-90 | `has_markup` holds exactly when the row's category holds `<`. |
| `Panes.DateBeforeNumeric` | quodlibet/browsers/paned/util.py:60-66 | A category that is both a time tag and numeric is configured as a date, without markup. |
| `Panes.RowsOfSong` | quodlibet/browsers/paned/util.py:53-72 | A pattern category gives a song the rows of its compiled pattern (or the empty pattern). A date or numeric category gives every song exactly one row, and that row's display and sort texts are equal. A plain tag category gives the song's separated values. |
| `Panes.CompileFailureFallsBack` | quodlibet/browsers/paned/util.py:47-79 | A category or display pattern that fails to compile is replaced by the empty pattern. The category still has markup, and its tags are those of the empty pattern. |
| `Panes.NoSeparatorUsesDefaultDisplay` | quodlibet/browsers/paned/util.py:43-45 | A row without an unescaped colon is all category, with its escaped colons restored. Its display is the default `~#tracks` pattern. |
| `Panes.DefaultDisplayIsPattern` | quodlibet/browsers/paned/util.py:43-44 | The default display holds `<`, so it is used as a compiled pattern. |
| `Panes.ExtraPiecesIgnored` | quodlibet/browsers/paned/util.py:43-45 | Cutting a row at its second unescaped colon does not change the configuration: pieces after the second are ignored. |
| `Panes.EscapedRowRoundTrip` | quodlibet/browsers/paned/util.py:22-45 | The row `escape(cat):escape(disp)` configures the pane from exactly `cat` and `disp`, unless `cat` ends with a backslash. |
| `Panes.EscapedCategoryRoundTrip` | quodlibet/browsers/paned/util.py:43-45 | A row that holds only an escaped category configures the pane from that category and the default display. |
| `Panes.TagsOfRow` | quodlibet/browsers/paned/util.py:48-87 | The pane's `tags` set holds exactly the tags listed by the compiled category pattern, or by `util.tagsplit` of a non-pattern category. The title comes from `util.pattern` or `util.tag` of the same category. |
| `Panes.DisplayOfRow` | quodlibet/browsers/paned/util.py:74-84 | Through the `format_display` closures (`FormatDisplay`), a collection is shown in one of three ways: through the compiled display pattern (or the empty pattern), as the rounded numeric value, or as the escaped comma-joined values. Which one follows the display text. |
| `Text.JoinStartsWith` | quodlibet/browsers/paned/util.py:108 | `"\t".join` starts with the first header and, when there is a second, a tab and that header. |
| `Text.SplitOn` | quodlibet/browsers/paned/util.py:104 | `split("\t")` gives one more piece than there are tabs. The pieces join back to the string, and none holds a tab. |
| `Text.SplitOnUnique` | quodlibet/browsers/paned/util.py:104 | Any non-empty list of tab-free pieces that joins to the string is its split. |
| `Text.SplitOnJoin` | quodlibet/browsers/paned/util.py:104-108 | Splitting a tab-join gives back the non-empty, tab-free list. |
| `Text.Words` | quodlibet/browsers/paned/util.py:102 | `split()` gives non-empty words without white space, which together hold every non-space character of the string. |
| `Text.WordsBySplitOn` | quodlibet/browsers/paned/util.py:102 | `split()` equals cutting at every white-space character and dropping the empty pieces. So the words are exactly the maximal runs of non-space characters: a run of white space separates like one character, and white space at either end gives no word. |
| `Text.WordsAfterSpace` | quodlibet/browsers/paned/util.py:102 | A word written after white space, or at the start, adds exactly that word. |
| `Headers.GetHeaders` | quodlibet/browsers/paned/util.py:97-104 | The stored legacy default `~people album` reads as `["~people", "album"]`. Any other stored string reads as its tab-separated pieces: as many as its tabs plus one, tab-free, and joining back to it. |
| `Headers.SaveHeaders` | quodlibet/browsers/paned/util.py:107-109 | The stored string splits on tabs back into the list, when the list is non-empty and tab-free. |
| `Headers.LegacyWords` | quodlibet/browsers/paned/util.py:101-102 | The whitespace split of `~people album` is `["~people", "album"]`. |
| `Headers.SavedLegacyOnlyFromItself` | quodlibet/browsers/paned/util.py:101-108 | A non-empty, tab-free list is saved as the legacy default string iff it is that single header. |
| `Headers.SavedOnlyFromItself` | quodlibet/browsers/paned/util.py:107-108 | A non-empty, tab-free list is stored as a given tab-free string iff the list is that string alone. |
| `Headers.SaveThenGet` | quodlibet/browsers/paned/util.py:97-109 | Saving then reading returns the list, when it is non-empty, tab-free and not the legacy default alone. |
| `Headers.SaveThenGetExceptions` | quodlibet/browsers/paned/util.py:97-109 | The empty list reads back as one empty header. The legacy default alone reads back as two headers. |
| `Headers.GetThenSave` | quodlibet/browsers/paned/util.py:97-109 | Reading then saving any stored string other than the legacy default gives that string back. |
| `Headers.LegacyMigrates` | quodlibet/browsers/paned/util.py:98-109 | Reading then saving the legacy default stores it in tab-separated form, `~people\talbum`. |

## Left out

- Pattern compilation and rendering are not modelled. `XMLFromPattern` (with its `tags`, `format` and `format_list`), `util.pattern`, `util.tag`, `util.tagsplit` and `util.escape` live in modules that are not part of this model. They are fields of `Env`, and the model states only how the pane configuration uses them.
- Only `ValueError` from pattern compilation is modelled, as `None`. Any other exception would propagate in the source, and the model does not represent it.
- `format_date`, the configured timestamp format and the `"%.2f"` rounding of floats are foreign or floating-point formatting. The model takes them as functions (`formatDate`, `round2`) and does not model the digits. The timestamp format is a parameter of `FormatSong`, because the source reads it from the configuration on every call.
- `TIME_TAGS` is defined in a module that is not part of this model. It is the `timeTags` set of `Env`.
- The configuration store (`config.get` and `config.set`) is I/O. `GetHeaders` takes the stored string, and `SaveHeaders` returns the string to store.
- `PaneConfig.__repr__` is cosmetic and is left out.
- `util.pattern`, which titles a pattern category at util.py:48, runs outside the `try` that catches `ValueError`. The model takes it to be total, so an exception it might raise is not represented.
- The closures stored in `format` and `format_display` are modelled as data (`RowFormat`, `DisplayFormat`) plus the interpreters `FormatSong` and `FormatDisplay`. The model therefore does not capture that they are Python callables.
- Text.Words: treats only space, tab, newline and carriage return as white space, not the other Unicode white space that Python's `str.split()` also recognises. The source applies it only to the constant `~people album`, which has a single space.
- Song collections (albums, playlists, aggregation, playlist files) and the GTK browsers, file choosers and wait windows are outside this core. Their implementation is not part of this model.
