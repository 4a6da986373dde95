/**
 * String helpers with the exact semantics of the host languages' built-ins:
 * Python's str.join / str.split() / str.strip() / re.sub, and JavaScript's
 * String.prototype.split / trim / toLowerCase.
 */
module Strings {
  import opened Wrappers

  /** Characters for which Python's str.isspace() holds; str.split(), str.strip()
      and the `\s` class of the re module all use this set. */
  predicate IsPySpace(c: char) {
    var n := c as int;
    n == 0x20 || 0x09 <= n <= 0x0D || 0x1C <= n <= 0x1F || n == 0x85 || n == 0xA0
    || n == 0x1680 || 0x2000 <= n <= 0x200A || n == 0x2028 || n == 0x2029
    || n == 0x202F || n == 0x205F || n == 0x3000
  }

  /** ECMAScript WhiteSpace and LineTerminator code points, the set String.prototype.trim removes. */
  predicate IsJsSpace(c: char) {
    var n := c as int;
    n == 0x20 || 0x09 <= n <= 0x0D || n == 0xA0 || n == 0x1680 || 0x2000 <= n <= 0x200A
    || n == 0x2028 || n == 0x2029 || n == 0x202F || n == 0x205F || n == 0x3000 || n == 0xFEFF
  }

  predicate StartsWith(s: string, prefix: string) {
    |prefix| <= |s| && s[..|prefix|] == prefix
  }

  predicate EndsWith(s: string, suffix: string) {
    |suffix| <= |s| && s[|s| - |suffix|..] == suffix
  }

  /** `sep.join(parts)` in Python, `parts.join(sep)` in JavaScript. */
  function Join(parts: seq<string>, sep: string): (r: string)
    ensures |parts| == 0 ==> r == ""
    ensures |parts| == 1 ==> r == parts[0]
    ensures |parts| > 0 ==> StartsWith(r, parts[0])
  {
    if |parts| == 0 then ""
    else if |parts| == 1 then parts[0]
    else parts[0] + sep + Join(parts[1..], sep)
  }

  /** Joining a list whose head has grown by one character grows the result at the front. */
  lemma JoinConsChar(c: char, parts: seq<string>, sep: string)
    requires |parts| > 0
    ensures Join([[c] + parts[0]] + parts[1..], sep) == [c] + Join(parts, sep)
  {
    var p := [[c] + parts[0]] + parts[1..];
    assert p[1..] == parts[1..];
  }

  /** Joining one more piece appends the separator and the piece. */
  lemma {:induction false} JoinSnoc(parts: seq<string>, last: string, sep: string)
    requires |parts| > 0
    ensures Join(parts + [last], sep) == Join(parts, sep) + sep + last
    decreases |parts|
  {
    if |parts| == 1 {
      assert (parts + [last])[1..] == [last];
    } else {
      assert (parts + [last])[1..] == parts[1..] + [last];
      JoinSnoc(parts[1..], last, sep);
    }
  }

  /** `s.split(sep)` in JavaScript for a one-character separator: the pieces between the
      separators, including empty ones; an empty string gives one empty piece. */
  function Split(s: string, sep: char): (r: seq<string>)
    ensures |r| >= 1
    ensures FreeOf(r, sep)
    ensures Join(r, [sep]) == s
    ensures sep !in s ==> r == [s]
    decreases |s|
  {
    if |s| == 0 then [""]
    else
      var rest := Split(s[1..], sep);
      if s[0] == sep then
        SplitAtSeparator(s, sep, rest);
        [""] + rest
      else
        SplitAtChar(s, sep, rest);
        [[s[0]] + rest[0]] + rest[1..]
  }

  /** The pieces of a split: at least one, none holding the separator, joining back to `s`. */
  predicate PiecesOf(s: string, sep: char, r: seq<string>) {
    |r| >= 1 && FreeOf(r, sep) && Join(r, [sep]) == s
  }

  lemma SplitAtSeparator(s: string, sep: char, rest: seq<string>)
    requires |s| > 0 && s[0] == sep && PiecesOf(s[1..], sep, rest)
    ensures PiecesOf(s, sep, [""] + rest)
  {
    var r := [""] + rest;
    assert r[1..] == rest;
    assert s == [sep] + s[1..];
    assert forall i :: 1 <= i < |r| ==> r[i] == rest[i - 1];
  }

  lemma SplitAtChar(s: string, sep: char, rest: seq<string>)
    requires |s| > 0 && s[0] != sep && PiecesOf(s[1..], sep, rest)
    requires sep !in s[1..] ==> rest == [s[1..]]
    ensures PiecesOf(s, sep, [[s[0]] + rest[0]] + rest[1..])
    ensures sep !in s ==> [[s[0]] + rest[0]] + rest[1..] == [s]
  {
    var r := [[s[0]] + rest[0]] + rest[1..];
    JoinConsChar(s[0], rest, [sep]);
    assert s == [s[0]] + s[1..];
    assert forall i :: 1 <= i < |r| ==> r[i] == rest[i];
    assert forall k :: 1 <= k < |r[0]| ==> r[0][k] == rest[0][k - 1];
    if sep !in s {
      assert forall k :: 0 <= k < |s[1..]| ==> s[1..][k] == s[k + 1];
    }
  }

  /** No piece contains the separator. */
  predicate FreeOf(parts: seq<string>, sep: char) {
    forall i :: 0 <= i < |parts| ==> sep !in parts[i]
  }

  /** The separator-free pieces of a join are recovered exactly by splitting it. */
  lemma {:induction false} SplitJoin(parts: seq<string>, sep: char)
    requires |parts| >= 1
    requires FreeOf(parts, sep)
    ensures Split(Join(parts, [sep]), sep) == parts
    decreases |parts|, |parts[0]|, 1
  {
    if |parts[0]| == 0 {
      if |parts| > 1 {
        SplitJoinEmptyHead(parts, sep);
      }
    } else {
      SplitJoinCharHead(parts, sep);
    }
  }

  lemma {:induction false} SplitJoinEmptyHead(parts: seq<string>, sep: char)
    requires |parts| > 1 && parts[0] == ""
    requires FreeOf(parts, sep)
    ensures Split(Join(parts, [sep]), sep) == parts
    decreases |parts|, |parts[0]|, 0
  {
    var tail := parts[1..];
    assert FreeOf(tail, sep) by {
      forall i | 0 <= i < |tail| ensures sep !in tail[i] {
        assert tail[i] == parts[i + 1];
      }
    }
    var joined := Join(tail, [sep]);
    assert Join(parts, [sep]) == [sep] + joined;
    SplitJoin(tail, sep);
    SplitCons(sep, joined, sep);
    assert parts == [""] + tail;
  }

  lemma {:induction false} SplitJoinCharHead(parts: seq<string>, sep: char)
    requires |parts| >= 1 && |parts[0]| > 0
    requires FreeOf(parts, sep)
    ensures Split(Join(parts, [sep]), sep) == parts
    decreases |parts|, |parts[0]|, 0
  {
    var c := parts[0][0];
    var shorter := [parts[0][1..]] + parts[1..];
    assert FreeOf(shorter, sep) by {
      forall i | 0 <= i < |shorter| ensures sep !in shorter[i] {
        if i == 0 {
          assert forall k :: 0 <= k < |parts[0][1..]| ==> parts[0][1..][k] == parts[0][k + 1];
        } else {
          assert shorter[i] == parts[i];
        }
      }
    }
    var joined := Join(shorter, [sep]);
    assert parts[0] == [c] + parts[0][1..];
    assert shorter[1..] == parts[1..];
    assert [[c] + shorter[0]] + shorter[1..] == parts;
    JoinConsChar(c, shorter, [sep]);
    assert Join(parts, [sep]) == [c] + joined;
    SplitJoin(shorter, sep);
    assert c != sep;
    SplitCons(c, joined, sep);
  }

  /** Splitting a string with one more character in front. */
  lemma SplitCons(c: char, s: string, sep: char)
    ensures c == sep ==> Split([c] + s, sep) == [""] + Split(s, sep)
    ensures c != sep ==> Split([c] + s, sep) == [[c] + Split(s, sep)[0]] + Split(s, sep)[1..]
  {
    assert ([c] + s)[1..] == s;
  }

  /** `s.split(sep)[0]` in JavaScript: the text before the first separator. */
  function FirstField(s: string, sep: char): (r: string)
    ensures StartsWith(s, r)
    ensures sep !in r
    ensures |r| == |s| || s[|r|] == sep
  {
    var parts := Split(s, sep);
    FirstFieldShape(s, sep);
    parts[0]
  }

  lemma {:induction false} FirstFieldShape(s: string, sep: char)
    ensures StartsWith(s, Split(s, sep)[0])
    ensures |Split(s, sep)[0]| == |s| || s[|Split(s, sep)[0]|] == sep
    decreases |s|
  {
    if |s| > 0 && s[0] != sep {
      FirstFieldShape(s[1..], sep);
    }
  }

  /** Number of leading characters satisfying Python's isspace. */
  function LeadingPySpaces(s: string): (n: nat)
    ensures n <= |s|
    ensures forall i :: 0 <= i < n ==> IsPySpace(s[i])
    ensures n < |s| ==> !IsPySpace(s[n])
  {
    if |s| == 0 || !IsPySpace(s[0]) then 0 else 1 + LeadingPySpaces(s[1..])
  }

  /** Number of trailing characters satisfying Python's isspace. */
  function TrailingPySpaces(s: string): (n: nat)
    ensures n <= |s|
    ensures forall i :: |s| - n <= i < |s| ==> IsPySpace(s[i])
    ensures n < |s| ==> !IsPySpace(s[|s| - n - 1])
  {
    if |s| == 0 || !IsPySpace(s[|s| - 1]) then 0 else 1 + TrailingPySpaces(s[..|s| - 1])
  }

  /** Number of leading characters satisfying JavaScript's whitespace test. */
  function LeadingJsSpaces(s: string): (n: nat)
    ensures n <= |s|
    ensures forall i :: 0 <= i < n ==> IsJsSpace(s[i])
    ensures n < |s| ==> !IsJsSpace(s[n])
  {
    if |s| == 0 || !IsJsSpace(s[0]) then 0 else 1 + LeadingJsSpaces(s[1..])
  }

  /** Number of trailing characters satisfying JavaScript's whitespace test. */
  function TrailingJsSpaces(s: string): (n: nat)
    ensures n <= |s|
    ensures forall i :: |s| - n <= i < |s| ==> IsJsSpace(s[i])
    ensures n < |s| ==> !IsJsSpace(s[|s| - n - 1])
  {
    if |s| == 0 || !IsJsSpace(s[|s| - 1]) then 0 else 1 + TrailingJsSpaces(s[..|s| - 1])
  }

  /** Python's `s.strip()`: the longest slice that neither starts nor ends with whitespace. */
  function PyStrip(s: string): (r: string)
    ensures LeadingPySpaces(s) + |r| <= |s|
    ensures r == s[LeadingPySpaces(s)..LeadingPySpaces(s) + |r|]
    ensures forall i :: LeadingPySpaces(s) + |r| <= i < |s| ==> IsPySpace(s[i])
    ensures PyStripped(r)
    ensures (forall i :: 0 <= i < |s| ==> IsPySpace(s[i])) <==> r == ""
  {
    var a := LeadingPySpaces(s);
    if a == |s| then ""
    else
      var rest := s[a..];
      var b := TrailingPySpaces(rest);
      assert !IsPySpace(s[a]);
      var r := rest[..|rest| - b];
      assert r == s[a..a + |r|];
      r
  }

  /** Neither the first nor the last character is whitespace in Python's sense. */
  predicate PyStripped(r: string) {
    |r| > 0 ==> !IsPySpace(r[0]) && !IsPySpace(r[|r| - 1])
  }

  /** JavaScript's `s.trim()`: the longest slice that neither starts nor ends with whitespace. */
  function JsTrim(s: string): (r: string)
    ensures LeadingJsSpaces(s) + |r| <= |s|
    ensures r == s[LeadingJsSpaces(s)..LeadingJsSpaces(s) + |r|]
    ensures forall i :: LeadingJsSpaces(s) + |r| <= i < |s| ==> IsJsSpace(s[i])
    ensures |r| > 0 ==> !IsJsSpace(r[0]) && !IsJsSpace(r[|r| - 1])
    ensures (forall i :: 0 <= i < |s| ==> IsJsSpace(s[i])) <==> r == ""
  {
    var a := LeadingJsSpaces(s);
    if a == |s| then ""
    else
      var rest := s[a..];
      var b := TrailingJsSpaces(rest);
      assert !IsJsSpace(s[a]);
      var r := rest[..|rest| - b];
      assert r == s[a..a + |r|];
      r
  }

  /** Trimming a string that has no surrounding whitespace leaves it unchanged. */
  lemma JsTrimIdentity(s: string)
    requires |s| > 0 ==> !IsJsSpace(s[0]) && !IsJsSpace(s[|s| - 1])
    ensures JsTrim(s) == s
  {
  }

  /** Python's `s.split()[0]`: the first whitespace-delimited word, or None where
      Python would raise IndexError because the string is empty or all whitespace. */
  function PyFirstWord(s: string): (r: Option<string>)
    ensures r.None? <==> forall i :: 0 <= i < |s| ==> IsPySpace(s[i])
    ensures r.Some? ==> |r.value| > 0 && forall i :: 0 <= i < |r.value| ==> !IsPySpace(r.value[i])
    ensures r.Some? ==> var a := LeadingPySpaces(s);
                          && a + |r.value| <= |s|
                          && s[a..a + |r.value|] == r.value
                          && (a + |r.value| == |s| || IsPySpace(s[a + |r.value|]))
  {
    var a := LeadingPySpaces(s);
    if a == |s| then None
    else
      var w := WordLength(s[a..]);
      assert s[a..][..w] == s[a..a + w];
      Some(s[a..a + w])
  }

  /** Length of the leading run of non-whitespace characters. */
  function WordLength(s: string): (n: nat)
    ensures n <= |s|
    ensures forall i :: 0 <= i < n ==> !IsPySpace(s[i])
    ensures n < |s| ==> IsPySpace(s[n])
  {
    if |s| == 0 || IsPySpace(s[0]) then 0 else 1 + WordLength(s[1..])
  }

  /** Python's `re.sub(r'\s+', ' ', s)`: every maximal whitespace run becomes one space. */
  function CollapseSpaces(s: string): (r: string)
    ensures PlainSpaces(r)
    ensures |r| <= |s|
    ensures |s| > 0 ==> |r| > 0 && (IsPySpace(s[0]) <==> r[0] == ' ')
    decreases |s|
  {
    if |s| == 0 then ""
    else if IsPySpace(s[0]) then " " + CollapseSpaces(s[LeadingPySpaces(s)..])
    else [s[0]] + CollapseSpaces(s[1..])
  }

  /** The only whitespace character present is the plain space. */
  predicate PlainSpaces(s: string) {
    forall i :: 0 <= i < |s| && IsPySpace(s[i]) ==> s[i] == ' '
  }

  /** No two spaces are adjacent. */
  predicate SingleSpaced(r: string) {
    forall i :: 0 <= i < |r| - 1 ==> !(r[i] == ' ' && r[i + 1] == ' ')
  }

  /** After collapsing, no two spaces are adjacent. */
  lemma {:induction false} CollapseSingleSpaced(s: string)
    ensures SingleSpaced(CollapseSpaces(s))
    decreases |s|
  {
    if |s| > 0 {
      if IsPySpace(s[0]) {
        var n := LeadingPySpaces(s);
        CollapseSingleSpaced(s[n..]);
        assert n < |s| ==> s[n..][0] == s[n];
        ConsSingleSpaced(' ', CollapseSpaces(s[n..]));
      } else {
        CollapseSingleSpaced(s[1..]);
        ConsSingleSpaced(s[0], CollapseSpaces(s[1..]));
      }
    }
  }

  lemma ConsSingleSpaced(c: char, rest: string)
    requires SingleSpaced(rest)
    requires c == ' ' && |rest| > 0 ==> rest[0] != ' '
    ensures SingleSpaced([c] + rest)
  {
    var r := [c] + rest;
    forall i | 0 <= i < |r| - 1 ensures !(r[i] == ' ' && r[i + 1] == ' ') {
      if i > 0 {
        assert r[i] == rest[i - 1] && r[i + 1] == rest[i];
      }
    }
  }

  /** A non-empty run of non-whitespace characters. */
  predicate IsWord(w: string) {
    |w| > 0 && forall k :: 0 <= k < |w| ==> !IsPySpace(w[k])
  }

  predicate AllPySpace(s: string) {
    forall i :: 0 <= i < |s| ==> IsPySpace(s[i])
  }

  /** Python's `s.split()` with no argument: the maximal runs of non-whitespace characters,
      in order. */
  function Words(s: string): (r: seq<string>)
    ensures forall i :: 0 <= i < |r| ==> IsWord(r[i])
    ensures r == [] <==> AllPySpace(s)
    decreases |s|
  {
    if |s| == 0 then []
    else if IsPySpace(s[0]) then
      var a := LeadingPySpaces(s);
      assert forall i :: 0 <= i < |s| - a ==> s[a..][i] == s[a + i];
      Words(s[a..])
    else
      var w := WordLength(s);
      assert forall k :: 0 <= k < w ==> s[..w][k] == s[k];
      [s[..w]] + Words(s[w..])
  }

  /** The first of the words is the first word `split()[0]` reads. */
  lemma WordsFirst(s: string)
    ensures Words(s) != [] ==> PyFirstWord(s) == Some(Words(s)[0])
  {
    if Words(s) != [] {
      WordsHead(s);
      var a := LeadingPySpaces(s);
      FirstWordAt(s, a, WordLength(s[a..]));
    }
  }

  lemma FirstWordAt(s: string, a: nat, w: nat)
    requires a == LeadingPySpaces(s) && a < |s| && w == WordLength(s[a..])
    ensures PyFirstWord(s).Some? && PyFirstWord(s).value == s[a..][..w]
  {
    SliceOfSuffix(s, a, w);
  }

  /** The first word starts after the leading whitespace and runs to the next whitespace. */
  lemma WordsHead(s: string)
    requires Words(s) != []
    ensures LeadingPySpaces(s) < |s|
    ensures Words(s)[0] == s[LeadingPySpaces(s)..][..WordLength(s[LeadingPySpaces(s)..])]
  {
    var a := LeadingPySpaces(s);
    assert a < |s|;
    var t := s[a..];
    assert t[0] == s[a];
    assert Words(s) == Words(t) by {
      if a == 0 { assert t == s; }
    }
  }

  /** Proof step for the word lemmas: slicing a suffix of `s` is slicing `s` itself. */
  lemma SliceOfSuffix(s: string, a: nat, w: nat)
    requires a + w <= |s|
    ensures s[a..a + w] == s[a..][..w]
  {
  }

  /** Collapsing copies a leading word unchanged. */
  lemma {:induction false} CollapseWord(s: string)
    ensures CollapseSpaces(s) == s[..WordLength(s)] + CollapseSpaces(s[WordLength(s)..])
    decreases |s|
  {
    var w := WordLength(s);
    if w == 0 {
      assert s[..0] == "" && s[0..] == s;
    } else {
      var t := s[1..];
      CollapseWord(t);
      SliceStep(s, w);
      assert CollapseSpaces(s) == [s[0]] + CollapseSpaces(t);
      assert WordLength(t) == w - 1;
      ConsWord(CollapseSpaces(s), s[0], CollapseSpaces(t), t[..w - 1], CollapseSpaces(s[w..]), s[..w]);
    }
  }

  /** Proof step for CollapseWord: one more character of the word extends the slice by one. */
  lemma SliceStep(s: string, w: nat)
    requires 1 <= w <= |s|
    ensures s[1..][w - 1..] == s[w..]
    ensures [s[0]] + s[1..][..w - 1] == s[..w]
  {
  }

  /** Proof step for CollapseWord: regroups the concatenation of one word with the rest of the text. */
  lemma ConsWord(x: string, c: char, y: string, head: string, rest: string, word: string)
    requires x == [c] + y && y == head + rest && word == [c] + head
    ensures x == word + rest
  {
  }

  /** Collapsing yields the words joined by single spaces, with one space in front when the
      text starts with whitespace and only whitespace behind. */
  lemma {:induction false} CollapseShape(s: string) returns (lead: string, trail: string)
    ensures lead == (if |s| > 0 && IsPySpace(s[0]) then " " else "")
    ensures AllPySpace(trail)
    ensures CollapseSpaces(s) == lead + Join(Words(s), " ") + trail
    decreases |s|
  {
    if |s| == 0 {
      lead, trail := "", "";
    } else if IsPySpace(s[0]) {
      var a := LeadingPySpaces(s);
      var l, t := CollapseShape(s[a..]);
      assert a < |s| ==> s[a..][0] == s[a];
      assert l == "";
      ShapeSpace(s, a, t);
      lead, trail := " ", t;
    } else {
      var w := WordLength(s);
      var l, t := CollapseShape(s[w..]);
      assert w < |s| ==> s[w..][0] == s[w];
      if Words(s[w..]) == [] {
        ShapeLastWord(s, w, l, t);
        lead, trail := "", l + t;
      } else {
        assert l == " ";
        ShapeWord(s, w, t);
        lead, trail := "", t;
      }
    }
  }

  /** The whitespace-first case of CollapseShape. */
  lemma ShapeSpace(s: string, a: nat, t: string)
    requires |s| > 0 && IsPySpace(s[0]) && a == LeadingPySpaces(s)
    requires CollapseSpaces(s[a..]) == "" + Join(Words(s[a..]), " ") + t
    ensures CollapseSpaces(s) == " " + Join(Words(s), " ") + t
  {
    var c, j := CollapseSpaces(s[a..]), Join(Words(s), " ");
    assert CollapseSpaces(s) == " " + c;
    assert Words(s) == Words(s[a..]);
    PadFront(c, j, t);
  }

  /** Proof step for CollapseShape: regroups leading padding around a collapsed string. */
  lemma PadFront(c: string, j: string, t: string)
    requires c == "" + j + t
    ensures " " + c == " " + j + t
  {
  }

  /** The case of CollapseShape where a word ends the text. */
  lemma ShapeLastWord(s: string, w: nat, l: string, t: string)
    requires |s| > 0 && !IsPySpace(s[0]) && w == WordLength(s)
    requires Words(s[w..]) == []
    requires CollapseSpaces(s[w..]) == l + Join(Words(s[w..]), " ") + t
    requires AllPySpace(l) && AllPySpace(t)
    ensures CollapseSpaces(s) == "" + Join(Words(s), " ") + (l + t)
    ensures AllPySpace(l + t)
  {
    CollapseWord(s);
    var c, word := CollapseSpaces(s[w..]), s[..w];
    assert Words(s) == [word];
    assert Join(Words(s[w..]), " ") == "";
    PadBack(CollapseSpaces(s), word, c, l, t);
    AllPySpaceAppend(l, t);
  }

  /** Proof step for CollapseShape: regroups trailing padding after the last word. */
  lemma PadBack(x: string, word: string, c: string, l: string, t: string)
    requires x == word + c && c == l + "" + t
    ensures x == "" + word + (l + t)
  {
  }

  /** Proof step: two runs of whitespace concatenate to a run of whitespace. */
  lemma AllPySpaceAppend(l: string, t: string)
    requires AllPySpace(l) && AllPySpace(t)
    ensures AllPySpace(l + t)
  {
    var x := l + t;
    forall i | 0 <= i < |x| ensures IsPySpace(x[i]) {
      if i < |l| { assert x[i] == l[i]; } else { assert x[i] == t[i - |l|]; }
    }
  }

  /** The case of CollapseShape where another word follows the first. */
  lemma ShapeWord(s: string, w: nat, t: string)
    requires |s| > 0 && !IsPySpace(s[0]) && w == WordLength(s)
    requires Words(s[w..]) != []
    requires CollapseSpaces(s[w..]) == " " + Join(Words(s[w..]), " ") + t
    ensures CollapseSpaces(s) == "" + Join(Words(s), " ") + t
  {
    CollapseWord(s);
    var ws := Words(s[w..]);
    assert Words(s) == [s[..w]] + ws;
    assert ([s[..w]] + ws)[1..] == ws;
    var j := Join(ws, " ");
    assert Join(Words(s), " ") == s[..w] + " " + j;
    Regroup4(s[..w], " ", j, t);
  }

  /** Proof step for ShapeWord: re-associates a four-part concatenation. */
  lemma Regroup4(x: string, y: string, z: string, t: string)
    ensures x + (y + z + t) == "" + (x + y + z) + t
  {
  }

  /** Whitespace in front adds its length to the leading whitespace count. */
  lemma {:induction false} LeadingSpacesAppend(p: string, q: string)
    requires AllPySpace(p)
    ensures LeadingPySpaces(p + q) == |p| + LeadingPySpaces(q)
    decreases |p|
  {
    if |p| == 0 {
      assert p + q == q;
    } else {
      assert (p + q)[1..] == p[1..] + q;
      LeadingSpacesAppend(p[1..], q);
    }
  }

  /** Stripping removes exactly the whitespace padding around a stripped text. */
  lemma StripPadded(lead: string, j: string, trail: string)
    requires AllPySpace(lead) && AllPySpace(trail) && PyStripped(j)
    ensures PyStrip(lead + j + trail) == j
  {
    var x := lead + j + trail;
    if j == "" {
      assert x == lead + trail;
      assert forall i :: 0 <= i < |x| ==> IsPySpace(x[i]);
    } else {
      var a := |lead|;
      assert x == lead + (j + trail);
      assert (j + trail)[0] == j[0];
      LeadingSpacesAppend(lead, j + trail);
      assert x[a..a + |j|] == j;
      assert forall k :: a + |j| <= k < |x| ==> x[k] == trail[k - a - |j|];
      StripWindow(x, a, |j|);
    }
  }

  /** A window with non-whitespace ends, whitespace before and only whitespace after, is
      what stripping keeps. */
  lemma StripWindow(x: string, a: nat, n: nat)
    requires 0 < n && a + n <= |x| && LeadingPySpaces(x) == a
    requires !IsPySpace(x[a + n - 1])
    requires forall k :: a + n <= k < |x| ==> IsPySpace(x[k])
    ensures PyStrip(x) == x[a..a + n]
  {
    var r := PyStrip(x);
    assert |r| >= n;
    assert |r| > 0 ==> !IsPySpace(x[a + |r| - 1]);
    assert |r| == n;
  }

  /** Words joined by single spaces neither start nor end with whitespace. */
  lemma {:induction false} JoinWordsStripped(ws: seq<string>)
    requires forall i :: 0 <= i < |ws| ==> IsWord(ws[i])
    ensures PyStripped(Join(ws, " "))
    ensures Join(ws, " ") == "" <==> ws == []
    decreases |ws|
  {
    if |ws| > 1 {
      JoinWordsStripped(ws[1..]);
      var j := Join(ws[1..], " ");
      var r := ws[0] + " " + j;
      assert r[0] == ws[0][0];
      assert r[|r| - 1] == j[|j| - 1];
    } else if |ws| == 1 {
      assert IsWord(ws[0]);
    }
  }

  /** Collapsing keeps every non-whitespace character, in order. */
  lemma {:induction false} CollapseKeepsText(s: string)
    ensures NonSpace(CollapseSpaces(s)) == NonSpace(s)
    decreases |s|
  {
    if |s| > 0 {
      if IsPySpace(s[0]) {
        var n := LeadingPySpaces(s);
        CollapseKeepsText(s[n..]);
        NonSpaceOfSpaces(s[..n]);
        assert s == s[..n] + s[n..];
        NonSpaceAppend(s[..n], s[n..]);
        assert (" " + CollapseSpaces(s[n..]))[1..] == CollapseSpaces(s[n..]);
      } else {
        CollapseKeepsText(s[1..]);
        assert ([s[0]] + CollapseSpaces(s[1..]))[1..] == CollapseSpaces(s[1..]);
      }
    }
  }

  /** The non-whitespace characters of a string, in order. */
  function NonSpace(s: string): (r: string)
    ensures |r| <= |s|
  {
    if |s| == 0 then "" else (if IsPySpace(s[0]) then "" else [s[0]]) + NonSpace(s[1..])
  }

  lemma {:induction false} NonSpaceAppend(a: string, b: string)
    ensures NonSpace(a + b) == NonSpace(a) + NonSpace(b)
    decreases |a|
  {
    if |a| > 0 {
      assert (a + b)[1..] == a[1..] + b;
      NonSpaceAppend(a[1..], b);
    } else {
      assert a + b == b;
    }
  }

  lemma {:induction false} NonSpaceOfSpaces(s: string)
    requires forall i :: 0 <= i < |s| ==> IsPySpace(s[i])
    ensures NonSpace(s) == ""
    decreases |s|
  {
    if |s| > 0 {
      NonSpaceOfSpaces(s[1..]);
    }
  }

  /** Python's `re.sub(r'<[^>]+>', rep, s)`: every markup tag, a `<` followed by at least
      one character other than `>` and then a `>`, is replaced by `rep`. */
  function StripTags(s: string, rep: string): (r: string)
    ensures '<' !in s ==> r == s
    ensures NoTag(s) ==> r == s
    ensures '>' !in rep && '>' !in s ==> '>' !in r
    ensures '<' !in rep && '>' !in rep ==> NoTag(r)
    ensures |s| > 0 && s[0] != '<' ==> |r| > 0 && r[0] == s[0]
    decreases |s|
  {
    if |s| == 0 then ""
    else if s[0] == '<' then
      match TagEnd(s)
      case Some(j) =>
        var t := StripTags(s[j + 1..], rep);
        TagFound(s, j);
        NoTagAfter(rep, t);
        rep + t
      case None =>
        var t := StripTags(s[1..], rep);
        NoTagTail(s);
        NoTagOpen(t);
        assert ("<" + t)[1..] == t;
        "<" + t
    else
      var t := StripTags(s[1..], rep);
      NoTagTail(s);
      NoTagAfter([s[0]], t);
      assert s == [s[0]] + s[1..];
      [s[0]] + t
  }

  /** No markup tag is left: every `<` that has a `>` somewhere after it is immediately
      followed by that `>`, so no `<`, one or more characters other than `>`, then `>`
      occurs. */
  predicate NoTag(r: string) {
    forall i, j :: 0 <= i < j < |r| && r[i] == '<' && r[j] == '>' ==> r[i + 1] == '>'
  }

  lemma NoTagAfter(p: string, t: string)
    ensures '<' !in p && NoTag(t) ==> NoTag(p + t)
  {
    if '<' in p || !NoTag(t) { return; }
    var r := p + t;
    assert forall k :: 0 <= k < |p| ==> r[k] == p[k];
    forall i, j | 0 <= i < j < |r| && r[i] == '<' && r[j] == '>' ensures r[i + 1] == '>' {
      assert i >= |p|;
      assert t[i - |p|] == '<' && t[j - |p|] == '>';
    }
  }

  lemma NoTagOpen(t: string)
    ensures NoTag(t) && ((|t| > 0 && t[0] == '>') || '>' !in t) ==> NoTag("<" + t)
  {
    if !NoTag(t) || !((|t| > 0 && t[0] == '>') || '>' !in t) { return; }
    var r := "<" + t;
    forall i, j | 0 <= i < j < |r| && r[i] == '<' && r[j] == '>' ensures r[i + 1] == '>' {
      assert r[j] == t[j - 1];
      if i > 0 {
        assert t[i - 1] == '<';
      }
    }
  }

  lemma NoTagTail(s: string)
    requires |s| > 0
    ensures NoTag(s) ==> NoTag(s[1..])
  {
    if !NoTag(s) { return; }
    var t := s[1..];
    forall i, j | 0 <= i < j < |t| && t[i] == '<' && t[j] == '>' ensures t[i + 1] == '>' {
      assert s[i + 1] == '<' && s[j + 1] == '>';
    }
  }

  /** A tag closing at `j` is a tag the text is not free of. */
  lemma TagFound(s: string, j: nat)
    requires |s| > 0 && s[0] == '<' && TagEnd(s) == Some(j)
    ensures !NoTag(s)
  {
    assert s[1] != '>';
  }

  /** A slice of a tag-free text is tag-free. */
  lemma NoTagSlice(c: string, a: nat, r: string)
    requires a + |r| <= |c| && r == c[a..a + |r|]
    requires NoTag(c)
    ensures NoTag(r)
  {
    forall i, j | 0 <= i < j < |r| && r[i] == '<' && r[j] == '>' ensures r[i + 1] == '>' {
      assert c[a + i] == '<' && c[a + j] == '>';
    }
  }

  /** Removing tags a second time changes nothing when the replacement holds no angle bracket. */
  lemma StripTagsIdempotent(s: string, rep: string)
    requires '<' !in rep && '>' !in rep
    ensures StripTags(StripTags(s, rep), rep) == StripTags(s, rep)
  {
  }

  /** The index of the `>` closing a tag that opens at position 0, if there is one. */
  function TagEnd(s: string): (r: Option<nat>)
    requires |s| > 0 && s[0] == '<'
    ensures r.Some? ==> 2 <= r.value < |s| && s[r.value] == '>'
                        && forall k :: 1 <= k < r.value ==> s[k] != '>'
    ensures r.None? ==> (|s| >= 2 && s[1] == '>') || '>' !in s
  {
    if |s| < 2 || s[1] == '>' then None
    else
      match IndexOf(s[1..], '>')
      case Some(k) => Some(k + 1)
      case None => None
  }

  /** The index of the first occurrence of `c` in `s`. */
  function IndexOf(s: string, c: char): (r: Option<nat>)
    ensures r.Some? ==> r.value < |s| && s[r.value] == c && c !in s[..r.value]
    ensures r.None? <==> c !in s
  {
    if |s| == 0 then None
    else if s[0] == c then Some(0)
    else match IndexOf(s[1..], c)
      case Some(k) =>
        assert s[..k + 1] == [s[0]] + s[1..][..k];
        Some(k + 1)
      case None =>
        assert s == [s[0]] + s[1..];
        None
  }

  /** ASCII upper-casing of one character; every other character is unchanged. */
  function UpperChar(c: char): char {
    if 'a' <= c <= 'z' then (c as int - 32) as char else c
  }

  /** ASCII lower-casing of one character; every other character is unchanged. */
  function LowerChar(c: char): char {
    if 'A' <= c <= 'Z' then (c as int + 32) as char else c
  }

  /** Python's `s.upper()` restricted to ASCII letters. */
  function ToUpper(s: string): (r: string)
    ensures |r| == |s|
    ensures forall i :: 0 <= i < |s| ==> r[i] == UpperChar(s[i])
  {
    seq(|s|, i requires 0 <= i < |s| => UpperChar(s[i]))
  }

  /** JavaScript's `s.toLowerCase()` restricted to ASCII letters. */
  function ToLower(s: string): (r: string)
    ensures |r| == |s|
    ensures forall i :: 0 <= i < |s| ==> r[i] == LowerChar(s[i])
  {
    seq(|s|, i requires 0 <= i < |s| => LowerChar(s[i]))
  }

  predicate IsDigit(c: char) {
    '0' <= c <= '9'
  }

  /** The decimal rendering of a natural number, as JavaScript's template literals produce it. */
  function NatToString(n: nat): (r: string)
    ensures |r| > 0
    ensures forall i :: 0 <= i < |r| ==> IsDigit(r[i])
    ensures |r| > 1 ==> r[0] != '0'
    decreases n
  {
    if n < 10 then [DigitChar(n)] else NatToString(n / 10) + [DigitChar(n % 10)]
  }

  function DigitChar(d: nat): (c: char)
    requires d < 10
    ensures IsDigit(c)
  {
    ('0' as int + d) as char
  }

  /** The value of a string of decimal digits. */
  function DigitsValue(s: string): nat
    requires forall i :: 0 <= i < |s| ==> IsDigit(s[i])
  {
    if |s| == 0 then 0 else 10 * DigitsValue(s[..|s| - 1]) + DigitValue(s[|s| - 1])
  }

  function DigitValue(c: char): (d: nat)
    requires IsDigit(c)
    ensures d < 10 && DigitChar(d) == c
  {
    c as int - '0' as int
  }

  /** Reading a rendered number back gives the number. */
  lemma {:induction false} NatToStringRoundTrip(n: nat)
    ensures DigitsValue(NatToString(n)) == n
    decreases n
  {
    var r := NatToString(n);
    if n >= 10 {
      NatToStringRoundTrip(n / 10);
      assert r[..|r| - 1] == NatToString(n / 10);
    }
  }
}
