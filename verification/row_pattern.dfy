/** The row pattern of a paned-browser pane, `category:display`, is cut at
    every colon that is not escaped with a backslash, and `\:` inside each
    piece then stands for a literal colon. */
module RowPattern {
  import opened Text

  const Backslash: char := '\\'

  /** Position `i` of `s` is a colon the split cuts at: the regular
      expression `(?<!\\):` matches there. */
  predicate IsBareColon(s: string, i: nat)
    requires i < |s|
  {
    s[i] == ':' && (i == 0 || s[i - 1] != Backslash)
  }

  /** Every colon in `p` is escaped. */
  predicate NoBareColon(p: string)
  {
    forall i :: 0 <= i < |p| ==> !IsBareColon(p, i)
  }

  predicate EndsWithBackslash(p: string)
  {
    |p| > 0 && p[|p| - 1] == Backslash
  }

  /** The number of colons the split cuts at. */
  function BareColons(s: string): nat
  {
    if |s| == 0 then 0
    else BareColons(s[..|s| - 1]) + if IsBareColon(s, |s| - 1) then 1 else 0
  }

  /** What characterises the pieces of `s`: they join back to `s` with
      colons, no piece holds a bare colon, and no piece before the last ends
      with a backslash (which would have escaped the colon after it). */
  predicate SplitsInto(s: string, parts: seq<string>)
  {
    |parts| >= 1 && Join(parts, ':') == s && Pieces(parts)
  }

  /** The per-piece conditions of `SplitsInto`. */
  predicate Pieces(parts: seq<string>)
  {
    (forall k :: 0 <= k < |parts| ==> NoBareColon(parts[k])) &&
    (forall k :: 0 <= k < |parts| - 1 ==> !EndsWithBackslash(parts[k]))
  }

  /** The last character of a join is that of its last part, or the colon
      before an empty last part. */
  lemma LastOfJoin(parts: seq<string>)
    requires |parts| >= 1
    ensures var j, p := Join(parts, ':'), parts[|parts| - 1];
      (|p| > 0 ==> |j| > 0 && j[|j| - 1] == p[|p| - 1]) &&
      (|p| == 0 && |parts| >= 2 ==> |j| > 0 && j[|j| - 1] == ':') &&
      (|p| == 0 && |parts| == 1 ==> j == "")
  {
    JoinEndsWithLast(parts, ':');
    var j, p := Join(parts, ':'), parts[|parts| - 1];
    if |p| > 0 {
      assert j[|j| - |p|..][|p| - 1] == p[|p| - 1];
    }
  }

  /** `re.split(r"(?<!\\):", s)`: the pieces of `s` between bare colons. */
  function Split(s: string): (parts: seq<string>)
    ensures |parts| == BareColons(s) + 1
    ensures SplitsInto(s, parts)
  {
    if |s| == 0 then [""]
    else
      var t, c := s[..|s| - 1], s[|s| - 1];
      var init := Split(t);
      SplitStep(s, init);
      if IsBareColon(s, |s| - 1) then init + [""]
      else init[..|init| - 1] + [init[|init| - 1] + [c]]
  }

  /** One more character either opens a new piece (a bare colon) or grows
      the last piece. */
  lemma SplitStep(s: string, init: seq<string>)
    requires |s| > 0
    requires |init| == BareColons(s[..|s| - 1]) + 1 && SplitsInto(s[..|s| - 1], init)
    ensures var c := s[|s| - 1];
      var parts := if IsBareColon(s, |s| - 1) then init + [""]
        else init[..|init| - 1] + [init[|init| - 1] + [c]];
      |parts| == BareColons(s) + 1 && SplitsInto(s, parts)
  {
    var t, c := s[..|s| - 1], s[|s| - 1];
    assert s == t + [c];
    LastOfJoin(init);
    assert |t| > 0 ==> s[|s| - 2] == t[|t| - 1];
    if IsBareColon(s, |s| - 1) {
      JoinSnoc(init, "", ':');
      OpenPart(init);
    } else {
      JoinGrowLast(init, c, ':');
      GrowLast(init, c);
    }
  }

  /** A text without a bare colon is a single piece. */
  lemma SplitWithoutBareColon(s: string)
    requires BareColons(s) == 0
    ensures Split(s) == [s]
  {
    JoinEndsWithLast(Split(s), ':');
  }

  /** Opening an empty piece after a piece that does not end in a backslash
      keeps the characterisation's per-piece conditions. */
  lemma OpenPart(parts: seq<string>)
    requires |parts| >= 1 && Pieces(parts)
    requires !EndsWithBackslash(parts[|parts| - 1])
    ensures Pieces(parts + [""])
  {
    var r := parts + [""];
    assert forall k :: 0 <= k < |parts| ==> r[k] == parts[k];
  }

  /** Appending a character to the last piece keeps the per-piece conditions,
      provided a colon appended there is escaped by the piece's last
      character. */
  lemma GrowLast(parts: seq<string>, c: char)
    requires |parts| >= 1 && Pieces(parts)
    requires c == ':' ==> EndsWithBackslash(parts[|parts| - 1])
    ensures Pieces(parts[..|parts| - 1] + [parts[|parts| - 1] + [c]])
  {
    var n := |parts|;
    var p := parts[n - 1];
    var r := parts[..n - 1] + [p + [c]];
    assert forall k :: 0 <= k < n - 1 ==> r[k] == parts[k];
    forall i | 0 <= i < |p + [c]| ensures !IsBareColon(p + [c], i) {
      if i < |p| { assert !IsBareColon(p, i); }
    }
  }

  /** The characterisation determines the pieces: `Split` is the only way
      to cut `s` that satisfies it. */
  lemma {:induction false} SplitUnique(s: string, parts: seq<string>)
    requires SplitsInto(s, parts)
    ensures parts == Split(s)
    decreases |s|
  {
    var n := |parts|;
    var last := parts[n - 1];
    if |s| == 0 {
      JoinEndsWithLast(parts, ':');
      assert n == 1;
    } else if |last| == 0 {
      DropEmptyLast(s, parts);
      SplitUnique(s[..|s| - 1], parts[..n - 1]);
      assert parts == parts[..n - 1] + [""];
    } else {
      var shorter := parts[..n - 1] + [last[..|last| - 1]];
      DropLastChar(s, parts);
      SplitUnique(s[..|s| - 1], shorter);
      assert shorter[..n - 1] == parts[..n - 1];
      assert shorter[n - 1] + [s[|s| - 1]] == last;
      assert parts == parts[..n - 1] + [last];
    }
  }

  /** An empty last piece stands after a bare colon at the end of `s`. */
  lemma DropEmptyLast(s: string, parts: seq<string>)
    requires SplitsInto(s, parts) && |s| > 0 && parts[|parts| - 1] == ""
    ensures |parts| >= 2 && SplitsInto(s[..|s| - 1], parts[..|parts| - 1])
    ensures IsBareColon(s, |s| - 1)
  {
    var n := |parts|;
    var init := parts[..n - 1];
    JoinEndsWithLast(parts, ':');
    assert parts == init + [""];
    JoinSnoc(init, "", ':');
    assert s[..|s| - 1] == Join(init, ':');
    LastOfJoin(init);
    assert IsBareColon(s, |s| - 1) by {
      if |s| > 1 {
        assert s[|s| - 2] == s[..|s| - 1][|s| - 2];
      }
    }
    assert forall k :: 0 <= k < n - 1 ==> init[k] == parts[k];
  }

  /** A non-empty last piece ends with the last character of `s`, which is
      then no bare colon; dropping it from both keeps the characterisation. */
  lemma DropLastChar(s: string, parts: seq<string>)
    requires SplitsInto(s, parts) && parts[|parts| - 1] != ""
    ensures var n, last := |parts|, parts[|parts| - 1];
      |s| > 0 && s[|s| - 1] == last[|last| - 1] &&
      SplitsInto(s[..|s| - 1], parts[..n - 1] + [last[..|last| - 1]]) &&
      !IsBareColon(s, |s| - 1)
  {
    var n := |parts|;
    var last := parts[n - 1];
    LastOfJoin(parts);
    var c := last[|last| - 1];
    var prefix := last[..|last| - 1];
    assert prefix + [c] == last;
    var shorter := parts[..n - 1] + [prefix];
    assert shorter[..n - 1] + [shorter[n - 1] + [c]] == parts;
    JoinGrowLast(shorter, c, ':');
    assert s[..|s| - 1] == Join(shorter, ':');
    forall k | 0 <= k < n ensures NoBareColon(shorter[k]) {
      if k == n - 1 {
        forall i | 0 <= i < |prefix| ensures !IsBareColon(prefix, i) {
          assert !IsBareColon(last, i);
        }
      } else {
        assert shorter[k] == parts[k];
      }
    }
    assert forall k :: 0 <= k < n - 1 ==> shorter[k] == parts[k];
    LastOfJoin(shorter);
    assert !IsBareColon(s, |s| - 1) by {
      if c == ':' {
        assert !IsBareColon(last, |last| - 1);
        assert s[|s| - 2] == s[..|s| - 1][|s| - 2];
      }
    }
  }

  /** `p` holds a backslash directly followed by a colon. */
  predicate HasEscapedColon(p: string)
  {
    exists i :: 0 <= i < |p| - 1 && p[i] == Backslash && p[i + 1] == ':'
  }

  /** Python's `p.replace(r"\:", ":")`: every escaped colon, scanning left to
      right without overlap, loses its backslash. */
  function Unescape(p: string): (r: string)
    ensures |r| <= |p|
    ensures !HasEscapedColon(p) ==> r == p
  {
    if |p| == 0 then ""
    else if |p| >= 2 && p[0] == Backslash && p[1] == ':' then
      assert HasEscapedColon(p);
      assert p == [p[0]] + [p[1]] + p[2..];
      ":" + Unescape(p[2..])
    else
      var rest := p[1..];
      assert p == [p[0]] + rest;
      assert HasEscapedColon(rest) ==> HasEscapedColon(p) by {
        if HasEscapedColon(rest) {
          var i :| 0 <= i < |rest| - 1 && rest[i] == Backslash && rest[i + 1] == ':';
          assert p[i + 1] == Backslash && p[i + 2] == ':';
        }
      }
      [p[0]] + Unescape(rest)
  }

  /** The escaping that a user writing a row pattern applies to a category or
      display text: every colon becomes `\:`. */
  function Escape(t: string): (r: string)
    ensures NoBareColon(r)
    ensures |t| > 0 ==> |r| > 0 && r[|r| - 1] == t[|t| - 1]
    ensures |r| > 0 ==> r[0] != ':'
  {
    if |t| == 0 then ""
    else
      var rest := Escape(t[1..]);
      assert t == [t[0]] + t[1..];
      var head := if t[0] == ':' then [Backslash, ':'] else [t[0]];
      forall i | 0 <= i < |head + rest| ensures !IsBareColon(head + rest, i) {
        if i >= |head| { assert (head + rest)[i] == rest[i - |head|]; }
        if i > |head| { assert !IsBareColon(rest, i - |head|); }
      }
      head + rest
  }

  /** Unescaping undoes escaping, whatever backslashes the text holds. */
  lemma {:induction false} UnescapeEscape(t: string)
    ensures Unescape(Escape(t)) == t
  {
    if |t| > 0 {
      var rest := Escape(t[1..]);
      UnescapeEscape(t[1..]);
      if t[0] == ':' {
        assert Escape(t) == [Backslash, ':'] + rest;
        UnescapeColonHead(rest);
      } else {
        assert Escape(t) == [t[0]] + rest;
        UnescapeCharHead(t[0], rest);
      }
      assert [t[0]] + t[1..] == t;
    }
  }

  /** An escaped colon in front unescapes to a colon. */
  lemma UnescapeColonHead(rest: string)
    ensures Unescape([Backslash, ':'] + rest) == ":" + Unescape(rest)
  {
    assert ([Backslash, ':'] + rest)[2..] == rest;
  }

  /** A character other than a colon in front, followed by text that does
      not start with a colon, is kept as it is. */
  lemma UnescapeCharHead(x: char, rest: string)
    requires x != ':'
    requires |rest| > 0 ==> rest[0] != ':'
    ensures Unescape([x] + rest) == [x] + Unescape(rest)
  {
    var e := [x] + rest;
    assert e[1..] == rest;
    assert |e| >= 2 ==> e[1] == rest[0];
  }

  /** Escaping undoes unescaping on every text whose colons are all escaped,
      such as each piece `Split` returns: unescaping such a piece loses
      nothing. */
  lemma {:induction false} EscapeUnescape(p: string)
    requires NoBareColon(p)
    ensures Escape(Unescape(p)) == p
  {
    if |p| > 0 {
      assert !IsBareColon(p, 0);
      if |p| >= 2 && p[0] == Backslash && p[1] == ':' {
        var rest := p[2..];
        assert |p| > 2 ==> !IsBareColon(p, 2);
        NoBareColonTail(p, 2);
        EscapeUnescape(rest);
        assert p == [Backslash, ':'] + rest;
        EscapeCons(':', Unescape(rest));
      } else {
        var rest := p[1..];
        assert |p| > 1 ==> !IsBareColon(p, 1);
        NoBareColonTail(p, 1);
        EscapeUnescape(rest);
        assert p == [p[0]] + rest;
        EscapeCons(p[0], Unescape(rest));
      }
    }
  }

  /** A suffix of a text without an unescaped colon has none either. */
  lemma NoBareColonTail(p: string, n: nat)
    requires NoBareColon(p) && n <= |p|
    requires n == |p| || p[n] != ':'
    ensures NoBareColon(p[n..])
  {
    var rest := p[n..];
    forall i | 0 <= i < |rest| ensures !IsBareColon(rest, i) {
      assert !IsBareColon(p, i + n);
    }
  }

  /** Escaping works character by character from the front. */
  lemma EscapeCons(x: char, t: string)
    ensures Escape([x] + t) == (if x == ':' then [Backslash, ':'] else [x]) + Escape(t)
  {
    assert ([x] + t)[1..] == t;
  }

  /** The pieces of a row pattern after unescaping, as `PaneConfig` uses
      them. */
  function Parts(row: string): (parts: seq<string>)
    ensures |parts| == BareColons(row) + 1
  {
    var raw := Split(row);
    seq(|raw|, k requires 0 <= k < |raw| => Unescape(raw[k]))
  }

  /** A row pattern written by escaping each text and joining them with
      colons reads back as those texts, provided no text but the last ends
      with a backslash. */
  lemma PartsOfEscaped(texts: seq<string>)
    requires |texts| >= 1
    requires forall k :: 0 <= k < |texts| - 1 ==> !EndsWithBackslash(texts[k])
    ensures Parts(Join(EscapeAll(texts), ':')) == texts
  {
    var es := EscapeAll(texts);
    var row := Join(es, ':');
    assert Pieces(es);
    SplitUnique(row, es);
    forall k | 0 <= k < |texts| ensures Parts(row)[k] == texts[k] {
      UnescapeEscape(texts[k]);
    }
  }

  function EscapeAll(texts: seq<string>): (es: seq<string>)
    ensures |es| == |texts|
    ensures forall k :: 0 <= k < |texts| ==> es[k] == Escape(texts[k])
  {
    seq(|texts|, k requires 0 <= k < |texts| => Escape(texts[k]))
  }

  /** Escaping works on a concatenation part by part. */
  lemma {:induction false} EscapeAppend(a: string, b: string)
    ensures Escape(a + b) == Escape(a) + Escape(b)
  {
    if |a| == 0 {
      assert a + b == b;
    } else {
      EscapeAppend(a[1..], b);
      EscapeAppendStep(a, b, Escape(a[1..]), Escape(b));
    }
  }

  /** The step of `EscapeAppend`: the first character of `a` is escaped in
      front of the rest, whether or not `b` follows. */
  lemma EscapeAppendStep(a: string, b: string, rest: string, tail: string)
    requires |a| > 0 && rest == Escape(a[1..]) && tail == Escape(b)
    requires Escape(a[1..] + b) == rest + tail
    ensures Escape(a + b) == Escape(a) + tail
  {
    var head := if a[0] == ':' then [Backslash, ':'] else [a[0]];
    assert Escape(a + b) == head + (rest + tail) by {
      assert (a + b)[0] == a[0] && (a + b)[1..] == a[1..] + b;
    }
    assert head + (rest + tail) == (head + rest) + tail;
  }

  /** A category ending with a backslash escapes the colon meant to
      separate it from the display: the row has no bare colon, so it is all
      category, and unescaping turns that final backslash and the colon
      into a colon. */
  lemma TrailingBackslashSwallowsSeparator(cat: string, disp: string)
    requires EndsWithBackslash(cat)
    ensures BareColons(Escape(cat) + ":" + Escape(disp)) == 0
    ensures Parts(Escape(cat) + ":" + Escape(disp)) == [cat[..|cat| - 1] + ":" + disp]
  {
    var text := cat[..|cat| - 1] + ":" + disp;
    var row := Escape(cat) + ":" + Escape(disp);
    TrailingBackslashRow(cat, disp);
    EscapedIsOnePiece(text);
    PartsOfOnePiece(Escape(text));
    UnescapeEscape(text);
  }

  /** A row that is a single piece is unescaped as a whole. */
  lemma PartsOfOnePiece(row: string)
    requires Split(row) == [row]
    ensures Parts(row) == [Unescape(row)]
  {
  }

  /** The row written for such a category and a display is the escaped
      text `category-without-its-backslash:display`. */
  lemma TrailingBackslashRow(cat: string, disp: string)
    requires EndsWithBackslash(cat)
    ensures Escape(cat) + ":" + Escape(disp) == Escape(cat[..|cat| - 1] + ":" + disp)
  {
    var front := cat[..|cat| - 1];
    assert Escape(cat) == Escape(front) + [Backslash] by {
      assert cat == front + [Backslash];
      EscapeAppend(front, [Backslash]);
      EscapeCons(Backslash, []);
      assert [Backslash] + [] == [Backslash];
    }
    assert Escape(front + ":") == Escape(front) + [Backslash, ':'] by {
      EscapeAppend(front, ":");
      EscapeCons(':', []);
      assert [':'] + [] == ":";
    }
    EscapeAppend(front + ":", disp);
  }

  /** An escaped text is a single piece of the split. */
  lemma EscapedIsOnePiece(text: string)
    ensures Split(Escape(text)) == [Escape(text)]
  {
    var row := Escape(text);
    assert SplitsInto(row, [row]);
    SplitUnique(row, [row]);
  }

  /** Position `i` of `row` is where a piece ends: at the end of the row or
      at a bare colon. */
  predicate CutAt(row: string, i: nat)
  {
    i == |row| || (i < |row| && IsBareColon(row, i))
  }

  /** The first `k` pieces of the split, joined back, start the row and end
      where a piece ends. */
  lemma JoinedPiecesCut(s: string, parts: seq<string>, k: nat)
    requires SplitsInto(s, parts) && 1 <= k <= |parts|
    ensures Join(parts[..k], ':') <= s && CutAt(s, |Join(parts[..k], ':')|)
  {
    var j := Join(parts[..k], ':');
    if k == |parts| {
      assert parts[..k] == parts;
    } else {
      JoinPrefix(parts, k, ':');
      assert s[|j|] == ':';
      LastOfJoin(parts[..k]);
      assert parts[..k][k - 1] == parts[k - 1];
      assert !EndsWithBackslash(parts[k - 1]);
      if |j| > 0 {
        assert s[|j| - 1] == j[|j| - 1];
      }
    }
  }

  /** Two starts of a row without a bare colon, each ending where a piece
      ends, are the same: each is the row up to its first bare colon. */
  lemma CutPrefixUnique(row: string, p: string, q: string)
    requires NoBareColon(p) && NoBareColon(q)
    requires p <= row && q <= row && CutAt(row, |p|) && CutAt(row, |q|)
    ensures p == q
  {
    if |p| < |q| {
      CutNotInside(row, q, |p|);
    } else if |q| < |p| {
      CutNotInside(row, p, |q|);
    }
    assert p == row[..|p|] && q == row[..|q|];
  }

  /** A start of the row without a bare colon has no cut inside it. */
  lemma CutNotInside(row: string, p: string, i: nat)
    requires NoBareColon(p) && p <= row && i < |p|
    ensures !IsBareColon(row, i)
  {
    assert !IsBareColon(p, i);
    assert row[i] == p[i];
    if i > 0 {
      assert row[i - 1] == p[i - 1];
    }
  }
}
