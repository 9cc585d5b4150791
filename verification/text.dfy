/** Python's `str.strip()` and `str.splitlines()`, which turn the CSV
    file's text into candidate URLs. */
module Text {

  /** `str.isspace()` for one character. */
  predicate IsSpace(c: char)
  {
    || c == ' '
    || ('\t' <= c <= '\r')
    || ('\U{1C}' <= c <= '\U{1F}')
    || c == '\U{85}' || c == '\U{A0}' || c == '\U{1680}'
    || ('\U{2000}' <= c <= '\U{200A}')
    || c == '\U{2028}' || c == '\U{2029}' || c == '\U{202F}' || c == '\U{205F}' || c == '\U{3000}'
  }

  /** The line boundaries `str.splitlines()` splits at ("\r\n" is handled
      in SplitLines as one boundary). */
  predicate IsLineBreak(c: char)
  {
    || ('\n' <= c <= '\r')
    || ('\U{1C}' <= c <= '\U{1E}')
    || c == '\U{85}' || c == '\U{2028}' || c == '\U{2029}'
  }

  predicate NoBreaks(line: string)
  {
    forall k :: 0 <= k < |line| ==> !IsLineBreak(line[k])
  }

  // ---------------------------------------------------------------------
  // strip
  // ---------------------------------------------------------------------

  /** The number of whitespace characters `s` starts with. */
  function LeadingSpaces(s: string): (n: nat)
    ensures n <= |s|
    ensures forall k :: 0 <= k < n ==> IsSpace(s[k])
    ensures n < |s| ==> !IsSpace(s[n])
  {
    if s == [] || !IsSpace(s[0]) then 0 else 1 + LeadingSpaces(s[1..])
  }

  /** The number of whitespace characters `s` ends with. */
  function TrailingSpaces(s: string): (n: nat)
    ensures n <= |s|
    ensures forall k :: |s| - n <= k < |s| ==> IsSpace(s[k])
    ensures n < |s| ==> !IsSpace(s[|s| - n - 1])
  {
    if s == [] || !IsSpace(s[|s| - 1]) then 0 else 1 + TrailingSpaces(s[..|s| - 1])
  }

  /** `r` is the slice of `s` starting at `i`, with only whitespace around it. */
  predicate StripsTo(s: string, r: string, i: nat)
  {
    && i + |r| <= |s|
    && r == s[i..i + |r|]
    && (forall k :: 0 <= k < i ==> IsSpace(s[k]))
    && (forall k :: i + |r| <= k < |s| ==> IsSpace(s[k]))
  }

  /** `s.strip()`: the longest slice of `s` that neither starts nor ends
      with whitespace and has only whitespace around it. */
  function Strip(s: string): (r: string)
    ensures r == [] || (!IsSpace(r[0]) && !IsSpace(r[|r| - 1]))
    ensures exists i: nat :: StripsTo(s, r, i)
  {
    var a := LeadingSpaces(s);
    var t := s[a..];
    var b := TrailingSpaces(t);
    var r := t[..|t| - b];
    assert StripsTo(s, r, a);
    r
  }

  /** Stripping text that already starts and ends with non-whitespace, and
      is followed only by whitespace, gives that text back. */
  lemma StripKeeps(t: string, w: string)
    requires t != []
    requires !IsSpace(t[0]) && !IsSpace(t[|t| - 1])
    requires forall k :: 0 <= k < |w| ==> IsSpace(w[k])
    ensures Strip(t + w) == t
  {
    var s := t + w;
    var r := Strip(s);
    var i: nat :| StripsTo(s, r, i);
    assert s[0] == t[0] && s[|t| - 1] == t[|t| - 1];
    assert i == 0;
    assert |r| >= |t|;
    assert |r| <= |t|;
    assert r == s[..|t|] == t;
  }

  /** Stripping twice strips no more than once. */
  lemma StripIdempotent(s: string)
    ensures Strip(Strip(s)) == Strip(s)
  {
    var r := Strip(s);
    if r != [] {
      StripKeeps(r, []);
      assert r + [] == r;
    }
  }

  // ---------------------------------------------------------------------
  // splitlines
  // ---------------------------------------------------------------------

  /** The position of the first line boundary in `s`, or |s|. */
  function BreakIndex(s: string): (i: nat)
    ensures i <= |s|
    ensures forall k :: 0 <= k < i ==> !IsLineBreak(s[k])
    ensures i < |s| ==> IsLineBreak(s[i])
  {
    if s == [] || IsLineBreak(s[0]) then 0 else 1 + BreakIndex(s[1..])
  }

  /** The length of the boundary at `i`: "\r\n" counts as one boundary. */
  function BoundaryWidth(s: string, i: nat): nat
    requires i < |s|
  {
    if s[i] == '\r' && i + 1 < |s| && s[i + 1] == '\n' then 2 else 1
  }

  /** `s.splitlines()`: the text between line boundaries, "\r\n" counting
      as one boundary. A final boundary does not open an empty last line,
      but every interior empty line is kept. */
  function SplitLines(s: string): (lines: seq<string>)
    ensures forall j :: 0 <= j < |lines| ==> NoBreaks(lines[j])
    ensures lines == [] <==> s == []
    decreases |s|
  {
    if s == [] then []
    else
      var i := BreakIndex(s);
      if i == |s| then [s]
      else
        [s[..i]] + SplitLines(s[i + BoundaryWidth(s, i)..])
  }

  /** One line boundary as it may appear in a text: "\r\n", or a single
      boundary character. */
  predicate IsSeparator(sep: string)
  {
    sep == "\r\n" || (|sep| == 1 && IsLineBreak(sep[0]))
  }

  /** One separator between each two neighbouring lines. */
  predicate SepCount(lines: seq<string>, seps: seq<string>)
  {
    |seps| == if lines == [] then 0 else |lines| - 1
  }

  /** The lines with `seps[j]` between `lines[j]` and `lines[j + 1]`, then
      `tail` (a final boundary, or nothing): the text a file with these
      lines holds. */
  function Join(lines: seq<string>, seps: seq<string>, tail: string): string
    requires SepCount(lines, seps)
  {
    if lines == [] then tail
    else if |lines| == 1 then lines[0] + tail
    else lines[0] + seps[0] + Join(lines[1..], seps[1..], tail)
  }

  /** A line without boundaries followed by a separator splits off as the
      first line, unless a lone "\r" would pair with a "\n" after it. */
  lemma SplitFirstLine(l: string, sep: string, rest: string)
    requires NoBreaks(l) && IsSeparator(sep)
    requires sep == "\r" && rest != [] ==> rest[0] != '\n'
    ensures SplitLines(l + sep + rest) == [l] + SplitLines(rest)
  {
    BreakAfter(l, sep, rest);
    WidthAfter(l, sep, rest);
    SliceParts(l, sep, rest);
  }

  /** The two outer parts of a text in three parts are its slices. */
  lemma SliceParts(l: string, sep: string, rest: string)
    ensures (l + sep + rest)[..|l|] == l
    ensures (l + sep + rest)[|l| + |sep|..] == rest
  {
  }

  /** The boundary after a first line is exactly its separator. */
  lemma WidthAfter(l: string, sep: string, rest: string)
    requires IsSeparator(sep)
    requires sep == "\r" && rest != [] ==> rest[0] != '\n'
    ensures BoundaryWidth(l + sep + rest, |l|) == |sep|
  {
    var s := l + sep + rest;
    var i := |l|;
    assert s[i] == sep[0];
    if sep == "\r\n" {
      assert s[i + 1] == '\n';
    } else if i + 1 < |s| {
      assert s[i + 1] == rest[0];
    }
  }

  /** The first boundary of a text is the first one after its break-free
      first line. */
  lemma BreakAfter(l: string, sep: string, rest: string)
    requires NoBreaks(l) && IsSeparator(sep)
    ensures BreakIndex(l + sep + rest) == |l|
  {
    var s := l + sep + rest;
    assert forall k :: 0 <= k < |l| ==> s[k] == l[k];
    assert s[|l|] == sep[0];
  }

  /** One line, optionally followed by a final boundary, splits as itself. */
  lemma SplitOneLine(l: string, tail: string)
    requires NoBreaks(l)
    requires tail == "" || IsSeparator(tail)
    requires tail == "" ==> l != ""
    ensures SplitLines(l + tail) == [l]
  {
    if tail == "" {
      assert BreakIndex(l) == |l|;
      assert l + tail == l;
    } else {
      SplitFirstLine(l, tail, "");
      assert l + tail + "" == l + tail;
    }
  }

  /** Joined lines do not start with "\n" unless they start with an empty
      line followed by a lone "\n". */
  lemma JoinHead(lines: seq<string>, seps: seq<string>, tail: string)
    requires SepCount(lines, seps) && lines != []
    requires forall j :: 0 <= j < |lines| ==> NoBreaks(lines[j])
    requires forall j :: 0 <= j < |seps| ==> IsSeparator(seps[j])
    requires tail == "" || IsSeparator(tail)
    requires lines[0] == "" && |lines| > 1 ==> seps[0] != "\n"
    requires lines[0] == "" && |lines| == 1 ==> tail != "\n"
    ensures Join(lines, seps, tail) == [] || Join(lines, seps, tail)[0] != '\n'
  {
    var t := Join(lines, seps, tail);
    if lines[0] != "" {
      assert t[0] == lines[0][0];
    } else if |lines| > 1 {
      assert t[0] == seps[0][0];
    } else {
      assert t == tail;
    }
  }

  /** The lines hold no boundary and the separators and final boundary
      are boundaries. A final boundary opens no line, so without one the
      last line is not empty, and text that is only a final boundary still
      has one (empty) line. No lone "\r" is followed by an empty line and
      then a lone "\n": the two would form one "\r\n" boundary. */
  predicate Splittable(lines: seq<string>, seps: seq<string>, tail: string)
  {
    && SepCount(lines, seps)
    && (forall j :: 0 <= j < |lines| ==> NoBreaks(lines[j]))
    && (forall j :: 0 <= j < |seps| ==> IsSeparator(seps[j]))
    && (forall j :: 0 <= j < |seps| - 1 && seps[j] == "\r" && lines[j + 1] == "" ==> seps[j + 1] != "\n")
    && (tail == "" || IsSeparator(tail))
    && (tail != "" ==> lines != [])
    && (lines != [] && tail == "" ==> lines[|lines| - 1] != "")
    && (seps != [] && seps[|seps| - 1] == "\r" && lines[|lines| - 1] == "" ==> tail != "\n")
  }

  /** Dropping the first line keeps the rest splittable. */
  lemma SplittableRest(lines: seq<string>, seps: seq<string>, tail: string)
    requires Splittable(lines, seps, tail) && |lines| > 1
    ensures Splittable(lines[1..], seps[1..], tail)
  {
  }

  /** Splitting joined lines gives the lines back, whatever boundaries
      separate them and whether or not a final boundary follows. */
  lemma {:induction false} SplitJoin(lines: seq<string>, seps: seq<string>, tail: string)
    requires Splittable(lines, seps, tail)
    ensures SplitLines(Join(lines, seps, tail)) == lines
    decreases |lines|
  {
    if |lines| == 1 {
      SplitOneLine(lines[0], tail);
    } else if |lines| > 1 {
      var rest := Join(lines[1..], seps[1..], tail);
      if seps[0] == "\r" {
        JoinHead(lines[1..], seps[1..], tail);
      }
      SplitFirstLine(lines[0], seps[0], rest);
      SplittableRest(lines, seps, tail);
      SplitJoin(lines[1..], seps[1..], tail);
      assert lines == [lines[0]] + lines[1..];
    }
  }

  /** Text holding a boundary is its first line, that boundary, and the
      rest, and splitting it splits off that first line. */
  lemma SplitStep(s: string) returns (sep: string, rest: string)
    requires BreakIndex(s) < |s|
    ensures IsSeparator(sep)
    ensures |rest| < |s|
    ensures s == s[..BreakIndex(s)] + sep + rest
    ensures SplitLines(s) == [s[..BreakIndex(s)]] + SplitLines(rest)
  {
    var i := BreakIndex(s);
    var w := BoundaryWidth(s, i);
    sep, rest := s[i..i + w], s[i + w..];
    if w == 2 {
      assert sep == "\r\n";
    }
    SliceThree(s, i, i + w);
  }

  /** A text is its three consecutive slices. */
  lemma SliceThree(s: string, i: nat, j: nat)
    requires i <= j <= |s|
    ensures s == s[..i] + s[i..j] + s[j..]
  {
    assert s[..j] == s[..i] + s[i..j];
  }

  /** Joining a line in front of joined lines puts its separator between. */
  lemma JoinCons(l: string, sep: string, lines: seq<string>, seps: seq<string>, tail: string)
    requires SepCount(lines, seps) && lines != []
    ensures SepCount([l] + lines, [sep] + seps)
    ensures Join([l] + lines, [sep] + seps, tail) == l + sep + Join(lines, seps, tail)
  {
    assert ([l] + lines)[1..] == lines;
    assert ([sep] + seps)[1..] == seps;
  }

  /** `s` as its lines, boundaries and final boundary. */
  predicate Pieces(s: string, lines: seq<string>, seps: seq<string>, tail: string)
  {
    && SepCount(lines, seps)
    && (forall j :: 0 <= j < |seps| ==> IsSeparator(seps[j]))
    && (tail == "" || IsSeparator(tail))
    && s == Join(lines, seps, tail)
  }

  /** A first line and a boundary in front of the pieces of the rest. */
  lemma PiecesCons(line: string, sep: string, rest: string, more: seq<string>, seps: seq<string>, tail: string)
    requires IsSeparator(sep) && Pieces(rest, more, seps, tail)
    ensures more != [] ==> Pieces(line + sep + rest, [line] + more, [sep] + seps, tail)
    ensures more == [] && rest == [] ==> Pieces(line + sep + rest, [line], [], sep)
  {
    if more != [] {
      JoinCons(line, sep, more, seps, tail);
    } else if rest == [] {
      assert line + sep + rest == Join([line], [], sep);
    }
  }

  /** Conversely, every text is its lines joined by boundaries, followed by
      at most one final boundary. */
  lemma {:induction false} SplitLinesPieces(s: string) returns (seps: seq<string>, tail: string)
    ensures Pieces(s, SplitLines(s), seps, tail)
    decreases |s|
  {
    seps, tail := [], "";
    if s == [] {
    } else if BreakIndex(s) == |s| {
      assert s + "" == s;
    } else {
      var line := s[..BreakIndex(s)];
      var sep, rest := SplitStep(s);
      var seps', tail' := SplitLinesPieces(rest);
      PiecesCons(line, sep, rest, SplitLines(rest), seps', tail');
      if rest == [] {
        tail := sep;
      } else {
        seps, tail := [sep] + seps', tail';
      }
    }
  }

  /** The CSV text read back: stripped, then split into lines. */
  function CsvLines(text: string): seq<string>
  {
    SplitLines(Strip(text))
  }

  /** An empty line between two URLs survives as an empty-string line, even
      though stripping removes the trailing newline. */
  lemma InteriorBlankLineKept(x: string, y: string)
    requires x != [] && y != []
    requires NoBreaks(x) && NoBreaks(y)
    requires !IsSpace(x[0]) && !IsSpace(y[|y| - 1])
    ensures CsvLines(x + "\n\n" + y + "\n") == [x, "", y]
  {
    var lines := [x, "", y];
    var seps := ["\n", "\n"];
    assert Join(lines[2..], seps[2..], "") == y + "";
    assert Join(lines[1..], seps[1..], "") == "" + "\n" + (y + "");
    var t := Join(lines, seps, "");
    assert t == x + "\n\n" + y;
    assert t + "\n" == x + "\n\n" + y + "\n";
    assert t[0] == x[0] && t[|t| - 1] == y[|y| - 1];
    StripKeeps(t, "\n");
    SplitJoin(lines, seps, "");
  }
}
