/** Python's `sep.join(parts)`, `s.split(sep)` and `s.split()` on strings,
    as the pane header code uses them. */
module Text {

  /** `sep.join(parts)` for a one-character separator. */
  function Join(parts: seq<string>, sep: char): string
  {
    if |parts| == 0 then ""
    else if |parts| == 1 then parts[0]
    else Join(parts[..|parts| - 1], sep) + [sep] + parts[|parts| - 1]
  }

  /** A join starts with its first part and, when there is a second part,
      the separator and that second part. */
  lemma {:induction false} JoinStartsWith(parts: seq<string>, sep: char)
    ensures |parts| >= 1 ==> parts[0] <= Join(parts, sep)
    ensures |parts| >= 2 ==> parts[0] + [sep] + parts[1] <= Join(parts, sep)
  {
    if |parts| >= 2 {
      var init := parts[..|parts| - 1];
      var r := Join(parts, sep);
      assert Join(init, sep) <= r;
      if |parts| == 2 {
        assert init == [parts[0]];
      } else {
        JoinStartsWith(init, sep);
        assert init[0] == parts[0] && init[1] == parts[1];
      }
    }
  }

  /** The join of the first `k` parts, and the separator after it, start
      the join of all parts. */
  lemma {:induction false} JoinPrefix(parts: seq<string>, k: nat, sep: char)
    requires 1 <= k < |parts|
    ensures Join(parts[..k], sep) + [sep] <= Join(parts, sep)
    decreases |parts|
  {
    var n := |parts|;
    var init := parts[..n - 1];
    assert Join(parts, sep) == Join(init, sep) + [sep] + parts[n - 1];
    if k == n - 1 {
      assert parts[..k] == init;
    } else {
      JoinPrefix(init, k, sep);
      assert init[..k] == parts[..k];
    }
  }

  /** Joining one more part appends the separator and that part. */
  lemma JoinSnoc(init: seq<string>, p: string, sep: char)
    requires |init| >= 1
    ensures Join(init + [p], sep) == Join(init, sep) + [sep] + p
  {
    assert (init + [p])[..|init|] == init;
  }

  /** A join ends with its last part, and before it (when there is an
      earlier part) stands the separator. */
  lemma JoinEndsWithLast(parts: seq<string>, sep: char)
    requires |parts| >= 1
    ensures var j, p := Join(parts, sep), parts[|parts| - 1];
      |p| <= |j| && j[|j| - |p|..] == p &&
      (|parts| >= 2 ==> |p| < |j| && j[|j| - |p| - 1] == sep) &&
      (|parts| == 1 ==> j == p)
  {
  }

  /** Growing the last part of a join by one character grows the join by
      that character. */
  lemma JoinGrowLast(parts: seq<string>, c: char, sep: char)
    requires |parts| >= 1
    ensures Join(parts[..|parts| - 1] + [parts[|parts| - 1] + [c]], sep) == Join(parts, sep) + [c]
  {
    var n := |parts|;
    if n >= 2 {
      JoinSnoc(parts[..n - 1], parts[n - 1] + [c], sep);
      JoinSnoc(parts[..n - 1], parts[n - 1], sep);
      assert parts[..n - 1] + [parts[n - 1]] == parts;
    }
  }

  /** No part holds the separator. */
  predicate Free(parts: seq<string>, sep: char)
  {
    forall k :: 0 <= k < |parts| ==> sep !in parts[k]
  }

  /** `s.split(sep)`: the pieces of `s` between occurrences of `sep`, empty
      pieces included, so there is always at least one piece. */
  function SplitOn(s: string, sep: char): (parts: seq<string>)
    ensures |parts| == multiset(s)[sep] + 1
    ensures Join(parts, sep) == s
    ensures Free(parts, sep)
  {
    if |s| == 0 then [""]
    else
      var t, c := s[..|s| - 1], s[|s| - 1];
      var init := SplitOn(t, sep);
      SplitOnStep(s, t, c, sep, init);
      if c == sep then init + [""]
      else init[..|init| - 1] + [init[|init| - 1] + [c]]
  }

  /** One more character either opens a new piece (the separator) or grows
      the last piece. */
  lemma SplitOnStep(s: string, t: string, c: char, sep: char, init: seq<string>)
    requires s == t + [c]
    requires |init| == multiset(t)[sep] + 1 && Join(init, sep) == t && Free(init, sep)
    ensures var parts := if c == sep then init + [""]
      else init[..|init| - 1] + [init[|init| - 1] + [c]];
      |parts| == multiset(s)[sep] + 1 && Join(parts, sep) == s && Free(parts, sep)
  {
    assert multiset(s) == multiset(t) + multiset{c};
    if c == sep {
      JoinSnoc(init, "", sep);
      assert Free(init + [""], sep) by {
        assert forall k :: 0 <= k < |init| ==> (init + [""])[k] == init[k];
      }
    } else {
      JoinGrowLast(init, c, sep);
      GrowLastFree(init, c, sep);
    }
  }

  lemma GrowLastFree(parts: seq<string>, c: char, sep: char)
    requires |parts| >= 1 && Free(parts, sep) && c != sep
    ensures Free(parts[..|parts| - 1] + [parts[|parts| - 1] + [c]], sep)
  {
    var r := parts[..|parts| - 1] + [parts[|parts| - 1] + [c]];
    forall k | 0 <= k < |r| ensures sep !in r[k] {
      if k < |parts| - 1 { assert r[k] == parts[k]; }
    }
  }

  /** What characterises the pieces of `s.split(sep)`: at least one, no
      separator in any, and they join back to `s`. */
  predicate SplitsOn(s: string, sep: char, parts: seq<string>)
  {
    |parts| >= 1 && Join(parts, sep) == s && Free(parts, sep)
  }

  /** The characterisation determines the result of `SplitOn`. */
  lemma {:induction false} SplitOnUnique(s: string, sep: char, parts: seq<string>)
    requires SplitsOn(s, sep, parts)
    ensures parts == SplitOn(s, sep)
    decreases |s|
  {
    var n := |parts|;
    var last := parts[n - 1];
    if |s| == 0 {
      JoinEndsWithLast(parts, sep);
      assert parts == [""];
    } else if |last| == 0 {
      DropEmptyPiece(s, sep, parts);
      SplitOnUnique(s[..|s| - 1], sep, parts[..n - 1]);
    } else {
      var shorter := parts[..n - 1] + [last[..|last| - 1]];
      DropPieceChar(s, sep, parts);
      SplitOnUnique(s[..|s| - 1], sep, shorter);
    }
  }

  /** An empty last piece stands after a separator at the end of `s`. */
  lemma DropEmptyPiece(s: string, sep: char, parts: seq<string>)
    requires SplitsOn(s, sep, parts) && |s| > 0 && parts[|parts| - 1] == ""
    ensures s[|s| - 1] == sep && |parts| >= 2
    ensures SplitsOn(s[..|s| - 1], sep, parts[..|parts| - 1])
    ensures parts == parts[..|parts| - 1] + [""]
  {
    var n := |parts|;
    var init := parts[..n - 1];
    JoinEndsWithLast(parts, sep);
    assert parts == init + [""];
    JoinSnoc(init, "", sep);
    assert forall k :: 0 <= k < n - 1 ==> init[k] == parts[k];
  }

  /** A non-empty last piece ends with the last character of `s`; dropping
      that character from both keeps the characterisation. */
  lemma DropPieceChar(s: string, sep: char, parts: seq<string>)
    requires SplitsOn(s, sep, parts) && parts[|parts| - 1] != ""
    ensures var n, last := |parts|, parts[|parts| - 1];
      var shorter := parts[..n - 1] + [last[..|last| - 1]];
      |s| > 0 && s[|s| - 1] == last[|last| - 1] && s[|s| - 1] != sep &&
      SplitsOn(s[..|s| - 1], sep, shorter) &&
      parts == shorter[..n - 1] + [shorter[n - 1] + [s[|s| - 1]]]
  {
    var n := |parts|;
    var last := parts[n - 1];
    var c := last[|last| - 1];
    var prefix := last[..|last| - 1];
    assert prefix + [c] == last;
    var shorter := parts[..n - 1] + [prefix];
    assert shorter[..n - 1] + [shorter[n - 1] + [c]] == parts;
    JoinGrowLast(shorter, c, sep);
    assert c != sep by { assert last[|last| - 1] == c; }
    forall k | 0 <= k < n ensures sep !in shorter[k] {
      if k == n - 1 { assert shorter[k] <= last; } else { assert shorter[k] == parts[k]; }
    }
  }

  /** Splitting a join gives the parts back when none holds the separator. */
  lemma SplitOnJoin(parts: seq<string>, sep: char)
    ensures |parts| >= 1 && Free(parts, sep) ==> SplitOn(Join(parts, sep), sep) == parts
  {
    if |parts| >= 1 && Free(parts, sep) {
      SplitOnUnique(Join(parts, sep), sep, parts);
    }
  }

  /** The white space `Words` splits at: space, tab, newline and carriage
      return only. */
  predicate IsSpace(c: char)
  {
    c == ' ' || c == '\t' || c == '\n' || c == '\r'
  }

  /** The characters of `s` that are not white space, in order. */
  function NonSpace(s: string): string
  {
    if |s| == 0 then ""
    else NonSpace(s[..|s| - 1]) + if IsSpace(s[|s| - 1]) then "" else [s[|s| - 1]]
  }

  /** The concatenation of `words`. */
  function Concat(words: seq<string>): string
  {
    if |words| == 0 then ""
    else Concat(words[..|words| - 1]) + words[|words| - 1]
  }

  /** `w` is non-empty and holds no white space. */
  predicate IsWord(w: string)
  {
    |w| > 0 && forall i :: 0 <= i < |w| ==> !IsSpace(w[i])
  }

  /** Every one of `words` is a word. */
  predicate Solid(words: seq<string>)
  {
    forall k :: 0 <= k < |words| ==> IsWord(words[k])
  }

  /** `s.split()`: the maximal runs of non-space characters of `s`, in order.
      Together they hold every non-space character of `s`, and none of them
      is empty or holds white space. */
  function Words(s: string): (words: seq<string>)
    ensures Solid(words)
    ensures Concat(words) == NonSpace(s)
    ensures |s| > 0 && !IsSpace(s[|s| - 1]) ==> |words| > 0
  {
    if |s| == 0 then []
    else
      var init, c := s[..|s| - 1], s[|s| - 1];
      var ws := Words(init);
      if IsSpace(c) then ws
      else if |init| == 0 || IsSpace(init[|init| - 1]) then
        WordsAppend(ws, c);
        ws + [[c]]
      else
        WordsGrow(ws, c);
        ws[..|ws| - 1] + [ws[|ws| - 1] + [c]]
  }

  lemma WordsAppend(ws: seq<string>, c: char)
    requires Solid(ws) && !IsSpace(c)
    ensures Solid(ws + [[c]]) && Concat(ws + [[c]]) == Concat(ws) + [c]
  {
    assert (ws + [[c]])[..|ws|] == ws;
  }

  lemma WordsGrow(ws: seq<string>, c: char)
    requires |ws| > 0 && Solid(ws) && !IsSpace(c)
    ensures var r := ws[..|ws| - 1] + [ws[|ws| - 1] + [c]];
      Solid(r) && Concat(r) == Concat(ws) + [c]
  {
    var r := ws[..|ws| - 1] + [ws[|ws| - 1] + [c]];
    assert r[..|ws| - 1] == ws[..|ws| - 1];
    assert forall k :: 0 <= k < |ws| - 1 ==> r[k] == ws[k];
  }

  /** A word written after white space (or at the start) is one more
      word. */
  lemma {:induction false} WordsAfterSpace(s: string, w: string)
    requires |s| == 0 || IsSpace(s[|s| - 1])
    requires IsWord(w)
    ensures Words(s + w) == Words(s) + [w]
    decreases |w|
  {
    var c := w[|w| - 1];
    var shorter := w[..|w| - 1];
    assert s + w == (s + shorter) + [c] by {
      assert shorter + [c] == w;
    }
    if |shorter| == 0 {
      assert s + shorter == s;
      WordsSnoc(s, c);
      assert w == [c];
    } else {
      assert IsWord(shorter) by {
        assert forall i :: 0 <= i < |shorter| ==> shorter[i] == w[i];
      }
      WordsAfterSpace(s, shorter);
      WordGrows(s, shorter, c);
    }
  }

  /** A word that is the last of `Words(s + word)` grows with a following
      non-space character. */
  lemma WordGrows(s: string, word: string, c: char)
    requires |word| > 0 && !IsSpace(word[|word| - 1]) && !IsSpace(c)
    requires Words(s + word) == Words(s) + [word]
    ensures Words(s + word + [c]) == Words(s) + [word + [c]]
  {
    WordsSnoc(s + word, c);
    assert (s + word)[|s + word| - 1] == word[|word| - 1];
    var ws := Words(s) + [word];
    assert ws[..|ws| - 1] == Words(s);
  }

  /** Appending a non-space character to `t` either starts a new word or
      grows the last one. */
  lemma WordsSnoc(t: string, c: char)
    requires !IsSpace(c)
    ensures var ws := Words(t);
      Words(t + [c]) ==
        if |t| == 0 || IsSpace(t[|t| - 1]) then ws + [[c]]
        else ws[..|ws| - 1] + [ws[|ws| - 1] + [c]]
  {
    assert (t + [c])[..|t|] == t;
  }

  /** `s` with every white-space character replaced by a blank. */
  function Blanked(s: string): (t: string)
    ensures |t| == |s|
    ensures forall i :: 0 <= i < |s| ==> (t[i] == ' ' <==> IsSpace(s[i]))
    ensures forall i :: 0 <= i < |s| && !IsSpace(s[i]) ==> t[i] == s[i]
  {
    seq(|s|, i requires 0 <= i < |s| => if IsSpace(s[i]) then ' ' else s[i])
  }

  /** The non-empty pieces of `parts`, in order. */
  function NonEmpty(parts: seq<string>): (r: seq<string>)
    ensures forall k :: 0 <= k < |r| ==> |r[k]| > 0
  {
    if |parts| == 0 then []
    else NonEmpty(parts[..|parts| - 1]) + if |parts[|parts| - 1]| == 0 then [] else [parts[|parts| - 1]]
  }

  /** `s.split()` cuts at every white-space character and drops the empty
      pieces, so a run of white space separates like one character and
      leading or trailing white space gives no word: the words are the
      maximal runs of non-space characters. */
  lemma {:induction false} WordsBySplitOn(s: string)
    ensures Words(s) == NonEmpty(SplitOn(Blanked(s), ' '))
    decreases |s|
  {
    if |s| == 0 {
      assert Blanked(s) == "";
      assert NonEmpty([""]) == NonEmpty([]);
    } else {
      WordsBySplitOn(s[..|s| - 1]);
      WordsStep(s);
    }
  }

  /** Blanking works character by character from the end. */
  lemma BlankedSnoc(s: string)
    requires |s| > 0
    ensures Blanked(s) == Blanked(s[..|s| - 1]) + [if IsSpace(s[|s| - 1]) then ' ' else s[|s| - 1]]
  {
  }

  /** One more character of `s` adds to `Words` what it adds to the
      non-empty pieces of the blanked split. */
  lemma WordsStep(s: string)
    requires |s| > 0
    ensures var t := s[..|s| - 1];
      Words(t) == NonEmpty(SplitOn(Blanked(t), ' ')) ==>
      Words(s) == NonEmpty(SplitOn(Blanked(s), ' '))
  {
    var t, c := s[..|s| - 1], s[|s| - 1];
    var init := SplitOn(Blanked(t), ' ');
    BlankedSplitStep(s);
    if IsSpace(c) {
      NonEmptySnoc(init, "");
    } else {
      WordsStepWord(s);
    }
  }

  /** Splitting the blanked `s` at blanks, one character at a time. */
  lemma BlankedSplitStep(s: string)
    requires |s| > 0
    ensures var t, c := s[..|s| - 1], s[|s| - 1];
      var init := SplitOn(Blanked(t), ' ');
      SplitOn(Blanked(s), ' ') ==
        if IsSpace(c) then init + [""] else init[..|init| - 1] + [init[|init| - 1] + [c]]
  {
    BlankedSnoc(s);
    var b := Blanked(s);
    assert b[..|b| - 1] == Blanked(s[..|s| - 1]);
  }

  /** A non-space character at the end of `s` opens a word or grows the
      last one, in `Words` and in the non-empty pieces alike. */
  lemma WordsStepWord(s: string)
    requires |s| > 0 && !IsSpace(s[|s| - 1])
    ensures var t, c := s[..|s| - 1], s[|s| - 1];
      var init := SplitOn(Blanked(t), ' ');
      Words(t) == NonEmpty(init) ==>
      Words(s) == NonEmpty(init[..|init| - 1] + [init[|init| - 1] + [c]])
  {
    var t, c := s[..|s| - 1], s[|s| - 1];
    assert t + [c] == s;
    var init := SplitOn(Blanked(t), ' ');
    var n := |init|;
    var front, last := init[..n - 1], init[n - 1];
    BlankedLastPiece(t);
    NonEmptyLast(init);
    WordsSnoc(t, c);
    if Words(t) == NonEmpty(init) {
      GrowNonEmpty(front, last, c, Words(t), |t| == 0 || IsSpace(t[|t| - 1]));
    }
  }

  /** The last piece of the blanked split of `t` is empty exactly when `t`
      is empty or ends with white space. */
  lemma BlankedLastPiece(t: string)
    ensures var init := SplitOn(Blanked(t), ' ');
      |init[|init| - 1]| == 0 <==> |t| == 0 || IsSpace(t[|t| - 1])
  {
    SplitOnLast(Blanked(t), ' ');
  }

  /** The non-empty pieces are those before the last one, and the last one
      if it is not empty. */
  lemma NonEmptyLast(parts: seq<string>)
    requires |parts| >= 1
    ensures var n := |parts|;
      NonEmpty(parts) == NonEmpty(parts[..n - 1]) + if |parts[n - 1]| == 0 then [] else [parts[n - 1]]
  {
  }

  /** Growing the last piece by a character opens a new non-empty piece when
      the last piece was empty, and grows the last non-empty piece
      otherwise. */
  lemma GrowNonEmpty(front: seq<string>, last: string, c: char, ws: seq<string>, startsWord: bool)
    requires ws == NonEmpty(front) + (if |last| == 0 then [] else [last])
    requires startsWord <==> |last| == 0
    ensures NonEmpty(front + [last + [c]]) ==
      if startsWord then ws + [[c]] else ws[..|ws| - 1] + [ws[|ws| - 1] + [c]]
  {
    NonEmptySnoc(front, last + [c]);
    if startsWord {
      assert last + [c] == [c];
    } else {
      assert ws[..|ws| - 1] == NonEmpty(front);
    }
  }

  /** The last piece of `s.split(sep)` is empty exactly when `s` is empty or
      ends with the separator. */
  lemma SplitOnLast(s: string, sep: char)
    ensures var parts := SplitOn(s, sep);
      |parts[|parts| - 1]| == 0 <==> |s| == 0 || s[|s| - 1] == sep
  {
  }

  lemma NonEmptySnoc(parts: seq<string>, p: string)
    ensures NonEmpty(parts + [p]) == NonEmpty(parts) + if |p| == 0 then [] else [p]
  {
    assert (parts + [p])[..|parts|] == parts;
  }
}
