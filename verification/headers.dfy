/** The list of pane headers (one row pattern per pane), kept in the
    configuration as a single tab-separated string. The configuration store
    itself is not modelled: reading takes the stored string, saving returns
    the string to store. */
module Headers {
  import opened Text

  /** The default that releases up to 2.1 shipped, separated by a space
      although they saved user lists tab-separated. */
  const LegacyDefault: string := "~people album"

  /** `get_headers`, given the stored string. */
  function GetHeaders(stored: string): (headers: seq<string>)
    ensures stored == LegacyDefault ==> headers == ["~people", "album"]
    ensures stored != LegacyDefault ==>
      Join(headers, '\t') == stored && Free(headers, '\t') &&
      |headers| == multiset(stored)['\t'] + 1
  {
    if stored == LegacyDefault then
      LegacyWords();
      Words(stored)
    else SplitOn(stored, '\t')
  }

  /** `save_headers`: the string to store. */
  function SaveHeaders(headers: seq<string>): (stored: string)
    ensures |headers| >= 1 && Free(headers, '\t') ==> SplitOn(stored, '\t') == headers
  {
    SplitOnJoin(headers, '\t');
    Join(headers, '\t')
  }

  /** The legacy default splits at its space. */
  lemma LegacyWords()
    ensures Words(LegacyDefault) == ["~people", "album"]
  {
    assert LegacyDefault == "~people " + "album";
    FirstLegacyWord();
    assert IsWord("album");
    WordsAfterSpace("~people ", "album");
  }

  /** The first word of the legacy default, with the space after it. */
  lemma FirstLegacyWord()
    ensures Words("~people ") == ["~people"]
  {
    assert IsWord("~people");
    WordsAfterSpace("", "~people");
    assert "" + "~people" == "~people";
    assert "~people "[..7] == "~people";
  }

  /** A saved list is the stored legacy default only when it is that one
      header. */
  lemma SavedLegacyOnlyFromItself(headers: seq<string>)
    requires |headers| >= 1 && Free(headers, '\t')
    ensures SaveHeaders(headers) == LegacyDefault <==> headers == [LegacyDefault]
  {
    assert '\t' !in LegacyDefault;
    SavedOnlyFromItself(headers, LegacyDefault);
  }

  /** A tab-free string is what a saved list is stored as only when the
      list is that one header. */
  lemma SavedOnlyFromItself(headers: seq<string>, x: string)
    requires |headers| >= 1 && Free(headers, '\t') && '\t' !in x
    ensures SaveHeaders(headers) == x <==> headers == [x]
  {
    assert SplitOn(x, '\t') == [x] by {
      assert Join([x], '\t') == x;
      SplitOnJoin([x], '\t');
    }
    if SaveHeaders(headers) == x {
      assert headers == SplitOn(SaveHeaders(headers), '\t');
    }
  }

  /** Saving then reading gives the list back, when it is non-empty, no
      header holds a tab, and it is not the legacy default on its own. */
  lemma SaveThenGet(headers: seq<string>)
    requires |headers| >= 1 && Free(headers, '\t')
    requires headers != [LegacyDefault]
    ensures GetHeaders(SaveHeaders(headers)) == headers
  {
    SavedLegacyOnlyFromItself(headers);
  }

  /** The round trip fails for the empty list, which reads back as one
      empty header, and for the legacy default alone, which reads back as
      two headers. */
  lemma SaveThenGetExceptions()
    ensures GetHeaders(SaveHeaders([])) == [""]
    ensures GetHeaders(SaveHeaders([LegacyDefault])) == ["~people", "album"]
  {
  }

  /** Reading then saving gives the stored string back, except that the
      legacy default is saved in the tab-separated form. */
  lemma GetThenSave(stored: string)
    requires stored != LegacyDefault
    ensures SaveHeaders(GetHeaders(stored)) == stored
  {
  }

  /** The legacy default is saved back in the tab-separated form. */
  lemma LegacyMigrates()
    ensures SaveHeaders(GetHeaders(LegacyDefault)) == "~people\talbum"
  {
    var headers := ["~people", "album"];
    assert GetHeaders(LegacyDefault) == headers;
    assert Join(headers, '\t') == "~people" + "\t" + "album" by {
      JoinSnoc(["~people"], "album", '\t');
      assert ["~people"] + ["album"] == headers;
    }
    assert "~people" + "\t" + "album" == "~people\talbum";
  }
}
