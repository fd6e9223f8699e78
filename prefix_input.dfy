/**
 The settings form's parser (popup.js:79-92): the textarea text is split at
 '\n', every line is trimmed, empty lines are dropped, and of equal lines only
 the first is kept. The result is the prefix list that is stored and that the
 content script applies in order.
 */
module PrefixInput {

  /** The characters JavaScript's `String.prototype.trim` removes: the
      WhiteSpace and LineTerminator code points of ECMAScript. */
  predicate IsWhitespace(c: char) {
    c == '\t' || c == '\n' || c == '\U{000B}' || c == '\U{000C}' || c == '\r' ||
    c == ' ' || c == '\U{00A0}' || c == '\U{1680}' || ('\U{2000}' <= c <= '\U{200A}') ||
    c == '\U{2028}' || c == '\U{2029}' || c == '\U{202F}' || c == '\U{205F}' ||
    c == '\U{3000}' || c == '\U{FEFF}'
  }

  /** Neither end of `s` is whitespace. */
  predicate IsTrimmed(s: string) {
    s == [] || (!IsWhitespace(s[0]) && !IsWhitespace(s[|s| - 1]))
  }

  /** `s` holds no line break, as every piece of a split at '\n' does. */
  predicate IsLine(s: string) {
    '\n' !in s
  }

  /** `s` with its leading whitespace removed. */
  function TrimStart(s: string): (r: string)
    ensures |r| <= |s| && r == s[|s| - |r|..]
    ensures r == [] || !IsWhitespace(r[0])
    decreases |s|
  {
    if |s| > 0 && IsWhitespace(s[0]) then TrimStart(s[1..]) else s
  }

  /** `s` with its trailing whitespace removed. */
  function TrimEnd(s: string): (r: string)
    ensures |r| <= |s| && r == s[..|r|]
    ensures r == [] || !IsWhitespace(r[|r| - 1])
    decreases |s|
  {
    if |s| > 0 && IsWhitespace(s[|s| - 1]) then TrimEnd(s[..|s| - 1]) else s
  }

  /** TrimStart removes nothing but whitespace. */
  lemma {:induction false} TrimStartRemovesWhitespace(s: string)
    ensures forall k :: 0 <= k < |s| - |TrimStart(s)| ==> IsWhitespace(s[k])
    decreases |s|
  {
    if |s| > 0 && IsWhitespace(s[0]) {
      TrimStartRemovesWhitespace(s[1..]);
      forall k | 1 <= k < |s| - |TrimStart(s)| ensures IsWhitespace(s[k]) {
        assert s[k] == s[1..][k - 1];
      }
    }
  }

  /** TrimEnd removes nothing but whitespace. */
  lemma {:induction false} TrimEndRemovesWhitespace(s: string)
    ensures forall k :: |TrimEnd(s)| <= k < |s| ==> IsWhitespace(s[k])
    decreases |s|
  {
    if |s| > 0 && IsWhitespace(s[|s| - 1]) {
      TrimEndRemovesWhitespace(s[..|s| - 1]);
      forall k | |TrimEnd(s)| <= k < |s| - 1 ensures IsWhitespace(s[k]) {
        assert s[k] == s[..|s| - 1][k];
      }
    }
  }

  /** A tail of a newline-free string is newline-free. */
  lemma TailKeepsLine(s: string, t: string)
    requires |t| <= |s| && t == s[|s| - |t|..]
    ensures IsLine(s) ==> IsLine(t)
  {
    if '\n' in t {
      var k :| 0 <= k < |t| && t[k] == '\n';
      assert s[|s| - |t| + k] == '\n';
    }
  }

  /** A head of a newline-free string is newline-free. */
  lemma HeadKeepsLine(s: string, t: string)
    requires |t| <= |s| && t == s[..|t|]
    ensures IsLine(s) ==> IsLine(t)
  {
    if '\n' in t {
      var k :| 0 <= k < |t| && t[k] == '\n';
      assert s[k] == '\n';
    }
  }

  /** `line.trim()`: the text between the leading and the trailing
      whitespace, so it holds no character the line did not hold. */
  function Trim(s: string): (r: string)
    ensures IsTrimmed(r)
    ensures IsLine(s) ==> IsLine(r)
    ensures IsTrimmed(s) ==> r == s
  {
    var t := TrimStart(s);
    TailKeepsLine(s, t);
    HeadKeepsLine(t, TrimEnd(t));
    TrimEnd(t)
  }

  /** Number of '\n' characters in `s`. */
  function NewlineCount(s: string): nat
    decreases |s|
  {
    if |s| == 0 then 0 else (if s[0] == '\n' then 1 else 0) + NewlineCount(s[1..])
  }

  /** `value.split('\n')`: the pieces between newlines, one more than there
      are newlines, none of them containing a newline. */
  function Lines(s: string): (ls: seq<string>)
    ensures |ls| == NewlineCount(s) + 1
    ensures forall i :: 0 <= i < |ls| ==> IsLine(ls[i])
    decreases |s|
  {
    if |s| == 0 then [""]
    else
      var rest := Lines(s[1..]);
      if s[0] == '\n' then [""] + rest
      else [[s[0]] + rest[0]] + rest[1..]
  }

  /** `lines.join('\n')`, as the form does when it shows the stored list
      (popup.js:121). */
  function Join(ls: seq<string>): (s: string)
    decreases |ls|
  {
    if |ls| == 0 then ""
    else if |ls| == 1 then ls[0]
    else ls[0] + "\n" + Join(ls[1..])
  }

  /** `.map((line) => line.trim())`. */
  function TrimAll(lines: seq<string>): (r: seq<string>)
    ensures |r| == |lines|
    ensures forall i :: 0 <= i < |r| ==> r[i] == Trim(lines[i])
    decreases |lines|
  {
    if |lines| == 0 then [] else [Trim(lines[0])] + TrimAll(lines[1..])
  }

  /** The two `.filter` steps: drop empty lines and every line already in
      `seen`, which grows by each line kept (the `seen` Set of line 80). */
  function KeepFirstNonEmpty(lines: seq<string>, seen: set<string>): (r: seq<string>)
    ensures |r| <= |lines|
    decreases |lines|
  {
    if |lines| == 0 then []
    else if lines[0] == "" || lines[0] in seen then KeepFirstNonEmpty(lines[1..], seen)
    else [lines[0]] + KeepFirstNonEmpty(lines[1..], seen + {lines[0]})
  }

  /** Every kept line is non-empty, not in `seen` and one of `lines`, and no
      line is kept twice. */
  lemma {:induction false} KeepFirstNonEmptyKeeps(lines: seq<string>, seen: set<string>)
    ensures forall i :: 0 <= i < |KeepFirstNonEmpty(lines, seen)| ==>
              KeepFirstNonEmpty(lines, seen)[i] != "" && KeepFirstNonEmpty(lines, seen)[i] !in seen &&
              KeepFirstNonEmpty(lines, seen)[i] in lines
    ensures forall i, j :: 0 <= i < j < |KeepFirstNonEmpty(lines, seen)| ==>
              KeepFirstNonEmpty(lines, seen)[i] != KeepFirstNonEmpty(lines, seen)[j]
    decreases |lines|
  {
    if |lines| > 0 {
      var rest := lines[1..];
      var r := KeepFirstNonEmpty(lines, seen);
      if lines[0] == "" || lines[0] in seen {
        KeepFirstNonEmptyKeeps(rest, seen);
        assert r == KeepFirstNonEmpty(rest, seen);
        forall i | 0 <= i < |r| ensures r[i] in lines {
          var k :| 0 <= k < |rest| && rest[k] == r[i];
          assert lines[k + 1] == r[i];
        }
      } else {
        KeepFirstNonEmptyKeeps(rest, seen + {lines[0]});
        var tail := KeepFirstNonEmpty(rest, seen + {lines[0]});
        assert r == [lines[0]] + tail;
        forall i | 1 <= i < |r| ensures r[i] == tail[i - 1] && r[i] in lines && r[i] != lines[0] {
          var k :| 0 <= k < |rest| && rest[k] == tail[i - 1];
          assert lines[k + 1] == r[i];
        }
      }
    }
  }

  /** `parsePrefixesInput`: every entry is non-empty, trimmed, free of
      newlines, and no entry occurs twice; there are no more entries than
      lines. */
  function ParsePrefixesInput(value: string): (r: seq<string>)
    ensures |r| <= NewlineCount(value) + 1
    ensures forall i :: 0 <= i < |r| ==> r[i] != "" && IsTrimmed(r[i]) && IsLine(r[i])
    ensures forall i, j :: 0 <= i < j < |r| ==> r[i] != r[j]
  {
    var lines := Lines(value);
    var trimmed := TrimAll(lines);
    var r := KeepFirstNonEmpty(trimmed, {});
    KeepFirstNonEmptyKeeps(trimmed, {});
    forall i | 0 <= i < |r| ensures IsTrimmed(r[i]) && IsLine(r[i]) {
      var k :| 0 <= k < |trimmed| && trimmed[k] == r[i];
      assert IsLine(lines[k]);
    }
    r
  }

  /** Position of the first `x` in `lines`, or `|lines|` when there is none. */
  function FirstIndex(lines: seq<string>, x: string): (k: nat)
    ensures k <= |lines|
    ensures k < |lines| <==> x in lines
    ensures k < |lines| ==> lines[k] == x
    ensures x !in lines[..k]
    decreases |lines|
  {
    if |lines| == 0 then 0
    else if lines[0] == x then 0
    else 1 + FirstIndex(lines[1..], x)
  }

  /** What the two filters keep: exactly the non-empty lines not in `seen`. */
  lemma {:induction false} KeepFirstNonEmptyMembers(lines: seq<string>, seen: set<string>, x: string)
    ensures x in KeepFirstNonEmpty(lines, seen) <==> x != "" && x !in seen && x in lines
    decreases |lines|
  {
    if |lines| > 0 {
      assert lines == [lines[0]] + lines[1..];
      if lines[0] == "" || lines[0] in seen {
        KeepFirstNonEmptyMembers(lines[1..], seen, x);
      } else {
        KeepFirstNonEmptyMembers(lines[1..], seen + {lines[0]}, x);
      }
    }
  }

  /** The filters keep lines in the order of their first occurrences. */
  lemma {:induction false} KeepFirstNonEmptyOrder(lines: seq<string>, seen: set<string>, i: nat, j: nat)
    requires i < j < |KeepFirstNonEmpty(lines, seen)|
    ensures var r := KeepFirstNonEmpty(lines, seen);
            FirstIndex(lines, r[i]) < FirstIndex(lines, r[j])
    decreases |lines|
  {
    var r := KeepFirstNonEmpty(lines, seen);
    var rest := lines[1..];
    var x, y := r[i], r[j];
    if lines[0] == "" || lines[0] in seen {
      assert r == KeepFirstNonEmpty(rest, seen);
      KeepFirstNonEmptyOrder(rest, seen, i, j);
      KeepFirstNonEmptyMembers(rest, seen, x);
      KeepFirstNonEmptyMembers(rest, seen, y);
      assert x != lines[0] && y != lines[0];
      FirstIndexShift(lines, x);
      FirstIndexShift(lines, y);
      assert FirstIndex(lines, x) < FirstIndex(lines, y);
    } else {
      var tail := KeepFirstNonEmpty(rest, seen + {lines[0]});
      assert r == [lines[0]] + tail;
      assert y == tail[j - 1];
      KeepFirstNonEmptyMembers(rest, seen + {lines[0]}, y);
      FirstIndexShift(lines, y);
      if i > 0 {
        KeepFirstNonEmptyOrder(rest, seen + {lines[0]}, i - 1, j - 1);
        assert x == tail[i - 1];
        KeepFirstNonEmptyMembers(rest, seen + {lines[0]}, x);
        FirstIndexShift(lines, x);
      } else {
        FirstIndexShift(lines, x);
      }
      assert FirstIndex(lines, x) < FirstIndex(lines, y);
    }
  }

  /** Past a first line that is not `x`, the first `x` is one further on. */
  lemma FirstIndexShift(lines: seq<string>, x: string)
    requires |lines| > 0
    ensures FirstIndex(lines, x) == if lines[0] == x then 0 else 1 + FirstIndex(lines[1..], x)
  {
  }

  /** Some line of `lines` trims to `x`. */
  predicate SomeLineTrimsTo(lines: seq<string>, x: string) {
    exists i :: 0 <= i < |lines| && Trim(lines[i]) == x
  }

  /** The trimmed lines are the trimmed forms of the lines. */
  lemma TrimAllMembers(lines: seq<string>, x: string)
    ensures x in TrimAll(lines) <==> SomeLineTrimsTo(lines, x)
  {
    var trimmed := TrimAll(lines);
    if x in trimmed {
      var i :| 0 <= i < |trimmed| && trimmed[i] == x;
      assert Trim(lines[i]) == x;
    }
    if exists i :: 0 <= i < |lines| && Trim(lines[i]) == x {
      var i :| 0 <= i < |lines| && Trim(lines[i]) == x;
      assert trimmed[i] == x;
    }
  }

  /** A string is a parsed prefix exactly when it is the trimmed form of some
      line and not empty. */
  lemma ParsedMembers(value: string, x: string)
    ensures x in ParsePrefixesInput(value) <==> x != "" && SomeLineTrimsTo(Lines(value), x)
  {
    var lines := Lines(value);
    var trimmed := TrimAll(lines);
    assert ParsePrefixesInput(value) == KeepFirstNonEmpty(trimmed, {});
    KeepFirstNonEmptyMembers(trimmed, {}, x);
    TrimAllMembers(lines, x);
  }

  /** Parsed prefixes appear in the order in which their trimmed lines first
      occur in the text. */
  lemma ParsedInFirstOccurrenceOrder(value: string, i: nat, j: nat)
    requires i < j < |ParsePrefixesInput(value)|
    ensures var r := ParsePrefixesInput(value);
            var trimmed := TrimAll(Lines(value));
            FirstIndex(trimmed, r[i]) < FirstIndex(trimmed, r[j])
  {
    KeepFirstNonEmptyOrder(TrimAll(Lines(value)), {}, i, j);
  }

  /** A line with no newline splits into itself. */
  lemma {:induction false} LinesOfLine(a: string)
    requires IsLine(a)
    ensures Lines(a) == [a]
    decreases |a|
  {
    if |a| > 0 {
      LinesOfLine(a[1..]);
      assert [a[0]] + a[1..] == a;
    }
  }

  /** Splitting a line, a newline and more text gives the line, then the
      pieces of the rest. */
  lemma {:induction false} LinesOfLineThenNewline(a: string, b: string)
    requires IsLine(a)
    ensures Lines(a + "\n" + b) == [a] + Lines(b)
    decreases |a|
  {
    var s := a + "\n" + b;
    if |a| == 0 {
      assert s[0] == '\n' && s[1..] == b;
    } else {
      assert s[0] == a[0] && s[1..] == a[1..] + "\n" + b;
      LinesOfLineThenNewline(a[1..], b);
      assert [a[0]] + a[1..] == a;
    }
  }

  /** Joining the pieces of a split gives the text back. */
  lemma {:induction false} JoinLines(s: string)
    ensures Join(Lines(s)) == s
    decreases |s|
  {
    if |s| > 0 {
      var rest := Lines(s[1..]);
      JoinLines(s[1..]);
      if s[0] == '\n' {
        assert Lines(s) == [""] + rest;
        assert ([""] + rest)[1..] == rest;
        assert s == "\n" + s[1..];
      } else if |rest| == 1 {
        assert Lines(s) == [[s[0]] + rest[0]];
        assert s == [s[0]] + s[1..];
      } else {
        var ls := Lines(s);
        assert ls == [[s[0]] + rest[0]] + rest[1..];
        assert ls[1..] == rest[1..];
        assert Join(rest) == rest[0] + "\n" + Join(rest[1..]);
        assert s == [s[0]] + s[1..];
      }
    }
  }

  /** Splitting the join of newline-free lines gives the lines back. */
  lemma {:induction false} LinesJoin(ls: seq<string>)
    requires |ls| >= 1
    requires forall i :: 0 <= i < |ls| ==> IsLine(ls[i])
    ensures Lines(Join(ls)) == ls
    decreases |ls|
  {
    if |ls| == 1 {
      LinesOfLine(ls[0]);
    } else {
      LinesJoin(ls[1..]);
      LinesOfLineThenNewline(ls[0], Join(ls[1..]));
      assert [ls[0]] + ls[1..] == ls;
    }
  }

  /** Trimming a list of trimmed lines changes nothing. */
  lemma TrimAllTrimmed(ls: seq<string>)
    requires forall i :: 0 <= i < |ls| ==> IsTrimmed(ls[i])
    ensures TrimAll(ls) == ls
  {
  }

  /** The filters keep a list of distinct non-empty lines, none already seen,
      as it is. */
  lemma {:induction false} KeepFirstNonEmptyOfDistinct(ls: seq<string>, seen: set<string>)
    requires forall i :: 0 <= i < |ls| ==> ls[i] != "" && ls[i] !in seen
    requires forall i, j :: 0 <= i < j < |ls| ==> ls[i] != ls[j]
    ensures KeepFirstNonEmpty(ls, seen) == ls
    decreases |ls|
  {
    if |ls| > 0 {
      forall i | 0 <= i < |ls[1..]| ensures ls[1..][i] !in seen + {ls[0]} {
        assert ls[1..][i] == ls[i + 1];
      }
      KeepFirstNonEmptyOfDistinct(ls[1..], seen + {ls[0]});
      assert [ls[0]] + ls[1..] == ls;
    }
  }

  /** Showing the parsed list one entry per line (popup.js:121) and parsing
      that text again gives the same list. */
  lemma ParseJoinRoundTrip(value: string)
    ensures ParsePrefixesInput(Join(ParsePrefixesInput(value))) == ParsePrefixesInput(value)
  {
    var r := ParsePrefixesInput(value);
    if |r| == 0 {
      assert Join(r) == "";
      assert Lines("") == [""];
      assert TrimAll([""]) == [""];
    } else {
      LinesJoin(r);
      TrimAllTrimmed(r);
      KeepFirstNonEmptyOfDistinct(r, {});
    }
  }
}
