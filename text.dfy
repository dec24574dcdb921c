/**
 * The string primitives the extractor relies on, spelled out: Python's
 * `str.isspace`, `strip`, `split()`, `split(sep)`, `" ".join`, `replace`
 * and ASCII `lower`, with the properties the rest of the model uses.
 */
module Text {

  /** Exactly the characters for which Python's `str.isspace()` holds. */
  predicate IsSpace(c: char)
  {
    || c == ' '
    || ('\t' <= c <= '\r')
    || ('\U{1c}' <= c <= '\U{1f}')
    || c == '\U{85}' || c == '\U{a0}' || c == '\U{1680}'
    || ('\U{2000}' <= c <= '\U{200a}')
    || c == '\U{2028}' || c == '\U{2029}' || c == '\U{202f}'
    || c == '\U{205f}' || c == '\U{3000}'
  }

  predicate IsDigit(c: char) { '0' <= c <= '9' }

  predicate IsLowerLetter(c: char) { 'a' <= c <= 'z' }

  predicate IsLetter(c: char) { 'a' <= c <= 'z' || 'A' <= c <= 'Z' }

  function LowerChar(c: char): char
  {
    if 'A' <= c <= 'Z' then (c as int + 32) as char else c
  }

  /** ASCII lowercasing, character by character. */
  function Lower(s: string): (r: string)
    ensures |r| == |s|
    ensures forall i :: 0 <= i < |s| ==> r[i] == LowerChar(s[i])
  {
    seq(|s|, i requires 0 <= i < |s| => LowerChar(s[i]))
  }

  /** The number of leading whitespace characters. */
  function LeadCount(s: string): (n: nat)
    ensures n <= |s|
    ensures forall k :: 0 <= k < n ==> IsSpace(s[k])
    ensures n == |s| || !IsSpace(s[n])
  {
    if |s| > 0 && IsSpace(s[0]) then 1 + LeadCount(s[1..]) else 0
  }

  /** The length left once the trailing whitespace is cut off. */
  function KeepCount(s: string): (n: nat)
    ensures n <= |s|
    ensures forall k :: n <= k < |s| ==> IsSpace(s[k])
    ensures n == 0 || !IsSpace(s[n - 1])
  {
    if |s| > 0 && IsSpace(s[|s| - 1]) then KeepCount(s[..|s| - 1]) else |s|
  }

  /** Removes the leading whitespace (Python `lstrip()`). */
  function DropSpaces(s: string): string
  {
    s[LeadCount(s)..]
  }

  /** Removes the trailing whitespace (Python `rstrip()`). */
  function TrimRight(s: string): string
  {
    s[..KeepCount(s)]
  }

  /** Python `strip()`. */
  function Trim(s: string): string
  {
    TrimRight(DropSpaces(s))
  }

  /** `a + b + c` regroups freely. */
  lemma AppendAssoc(a: string, b: string, c: string)
    ensures a + b + c == a + (b + c)
  {
  }

  /** A string is the concatenation of its pieces around two cut points. */
  lemma SplitAt(s: string, i: nat, j: nat)
    requires i <= j <= |s|
    ensures s == s[..i] + (s[i..j] + s[j..])
  {
    assert s[i..] == s[i..j] + s[j..];
    assert s == s[..i] + s[i..];
  }

  /** The trimmed string is a slice of the input with only whitespace cut off. */
  lemma TrimSlice(s: string) returns (i: nat)
    ensures i + |Trim(s)| <= |s|
    ensures forall k :: 0 <= k < |Trim(s)| ==> Trim(s)[k] == s[i + k]
    ensures forall k :: 0 <= k < i ==> IsSpace(s[k])
    ensures forall k :: i + |Trim(s)| <= k < |s| ==> IsSpace(s[k])
    ensures Trim(s) == [] || (!IsSpace(Trim(s)[0]) && !IsSpace(Trim(s)[|Trim(s)| - 1]))
  {
    var d := DropSpaces(s);
    i := |s| - |d|;
    var t := TrimRight(d);
    assert Trim(s) == t;
    forall k | 0 <= k < |t| ensures t[k] == s[i + k] {
      assert t[k] == d[k];
    }
    forall k | i + |t| <= k < |s| ensures IsSpace(s[k]) {
      assert s[k] == d[k - i];
    }
  }

  predicate Blank(s: string)
  {
    forall k :: 0 <= k < |s| ==> IsSpace(s[k])
  }

  lemma {:induction false} LeadCountOfBlankPrefix(pre: string, x: string)
    requires Blank(pre)
    ensures LeadCount(pre + x) == |pre| + LeadCount(x)
    decreases |pre|
  {
    if |pre| > 0 {
      assert (pre + x)[0] == pre[0];
      assert (pre + x)[1..] == pre[1..] + x;
      LeadCountOfBlankPrefix(pre[1..], x);
    } else {
      assert pre + x == x;
    }
  }

  lemma {:induction false} KeepCountOfBlankSuffix(x: string, post: string)
    requires Blank(post)
    ensures KeepCount(x + post) == KeepCount(x)
    decreases |post|
  {
    if |post| > 0 {
      var y := x + post;
      assert y[|y| - 1] == post[|post| - 1];
      assert y[..|y| - 1] == x + post[..|post| - 1];
      KeepCountOfBlankSuffix(x, post[..|post| - 1]);
    } else {
      assert x + post == x;
    }
  }

  lemma DropSpacesOfBlankPrefix(pre: string, x: string)
    requires Blank(pre)
    ensures DropSpaces(pre + x) == DropSpaces(x)
  {
    LeadCountOfBlankPrefix(pre, x);
    assert (pre + x)[|pre|..] == x;
  }

  lemma DropSpacesOfVisible(x: string)
    requires x == [] || !IsSpace(x[0])
    ensures DropSpaces(x) == x
  {
  }

  /** Surrounding whitespace is exactly what `strip()` removes. */
  lemma TrimOfPadded(pre: string, core: string, post: string)
    requires Blank(pre) && Blank(post)
    requires core == [] || (!IsSpace(core[0]) && !IsSpace(core[|core| - 1]))
    ensures Trim(pre + core + post) == core
  {
    var s := pre + core + post;
    assert s == pre + (core + post);
    LeadCountOfBlankPrefix(pre, core + post);
    if core == [] {
      assert core + post == post;
      assert LeadCount(post) == |post|;
      assert DropSpaces(s) == [];
    } else {
      assert (core + post)[0] == core[0];
      assert LeadCount(core + post) == 0;
      assert DropSpaces(s) == core + post;
      KeepCountOfBlankSuffix(core, post);
      assert KeepCount(core) == |core|;
      assert (core + post)[..|core|] == core;
    }
  }

  /** One space on each side of a visible-ended text is stripped again. */
  lemma TrimOfSpaced(core: string)
    requires core == [] || (!IsSpace(core[0]) && !IsSpace(core[|core| - 1]))
    ensures Trim(" " + core + " ") == core
  {
    TrimOfPadded(" ", core, " ");
  }

  /** A non-empty stripped text starts and ends with a visible character. */
  lemma TrimEnds(s: string)
    ensures Trim(s) == [] || (!IsSpace(Trim(s)[0]) && !IsSpace(Trim(s)[|Trim(s)| - 1]))
  {
    var _ := TrimSlice(s);
  }

  /** A character absent from the input is absent from its trimmed form. */
  lemma TrimKeepsAbsent(s: string, c: char)
    requires c !in s
    ensures c !in Trim(s)
  {
    var i := TrimSlice(s);
    forall k | 0 <= k < |Trim(s)| ensures Trim(s)[k] != c {
      assert Trim(s)[k] == s[i + k];
    }
  }

  /** A string without leading or trailing whitespace is its own `strip()`. */
  lemma TrimOfTrimmed(s: string)
    requires s == [] || (!IsSpace(s[0]) && !IsSpace(s[|s| - 1]))
    ensures Trim(s) == s
  {
  }

  lemma {:induction false} TrimTwice(s: string)
    ensures Trim(Trim(s)) == Trim(s)
  {
    var _ := TrimSlice(s);
    TrimOfTrimmed(Trim(s));
  }

  /** Longest prefix without whitespace. */
  function TakeWord(s: string): (w: string)
    ensures |w| <= |s| && w == s[..|w|]
    ensures forall i :: 0 <= i < |w| ==> !IsSpace(w[i])
    ensures |w| == |s| || IsSpace(s[|w|])
    ensures |s| > 0 && !IsSpace(s[0]) ==> |w| > 0
  {
    if |s| == 0 || IsSpace(s[0]) then [] else [s[0]] + TakeWord(s[1..])
  }

  /** A word of Python's `split()`: non-empty, no whitespace. */
  predicate IsWord(w: string)
  {
    |w| > 0 && forall i :: 0 <= i < |w| ==> !IsSpace(w[i])
  }

  /** Python's `s.split()`: the maximal whitespace-free runs, in order. */
  function Words(s: string): seq<string>
    decreases |s|
  {
    var t := DropSpaces(s);
    if t == [] then []
    else
      var w := TakeWord(t);
      [w] + Words(t[|w|..])
  }

  predicate AllWords(ws: seq<string>)
  {
    forall k :: 0 <= k < |ws| ==> IsWord(ws[k])
  }

  lemma AllWordsCons(w: string, ws: seq<string>)
    requires IsWord(w) && AllWords(ws)
    ensures AllWords([w] + ws)
  {
    forall k | 0 <= k < |[w] + ws| ensures IsWord(([w] + ws)[k]) {
      if k > 0 {
        assert ([w] + ws)[k] == ws[k - 1];
      }
    }
  }

  /** Every piece of `split()` is a non-empty run without whitespace. */
  lemma {:induction false} WordsAreWords(s: string)
    ensures AllWords(Words(s))
    decreases |s|
  {
    var t := DropSpaces(s);
    if t != [] {
      var w := TakeWord(t);
      WordsAreWords(t[|w|..]);
      AllWordsCons(w, Words(t[|w|..]));
    }
  }

  /** `sep.join(ws)`. */
  function Join(ws: seq<string>, sep: string): string
  {
    if |ws| == 0 then []
    else if |ws| == 1 then ws[0]
    else ws[0] + sep + Join(ws[1..], sep)
  }

  function Concat(ws: seq<string>): string
  {
    if |ws| == 0 then [] else ws[0] + Concat(ws[1..])
  }

  /** `" ".join(s.split())`: whitespace runs collapsed to one space, ends trimmed. */
  function Collapse(s: string): string
  {
    Join(Words(s), " ")
  }

  /** The visible (non-whitespace) characters, in order. */
  function NonSpace(s: string): string
  {
    if |s| == 0 then [] else (if IsSpace(s[0]) then [] else [s[0]]) + NonSpace(s[1..])
  }

  /**
   * Normal spacing: every whitespace character is a plain space that sits
   * between two visible characters (no leading, trailing or double spaces).
   */
  ghost predicate WellSpaced(s: string)
  {
    && (forall i :: 0 <= i < |s| && IsSpace(s[i]) ==> s[i] == ' ')
    && (|s| > 0 ==> !IsSpace(s[0]) && !IsSpace(s[|s| - 1]))
    && (forall i, j {:trigger s[i], s[j]} :: 0 <= i && j == i + 1 && j < |s| ==> !IsSpace(s[i]) || !IsSpace(s[j]))
  }

  lemma {:induction false} NonSpaceAppend(a: string, b: string)
    ensures NonSpace(a + b) == NonSpace(a) + NonSpace(b)
    decreases |a|
  {
    if |a| > 0 {
      var h := if IsSpace(a[0]) then [] else [a[0]];
      assert (a + b)[0] == a[0];
      assert (a + b)[1..] == a[1..] + b;
      assert NonSpace(a + b) == h + NonSpace(a[1..] + b);
      NonSpaceAppend(a[1..], b);
      assert NonSpace(a) == h + NonSpace(a[1..]);
    } else {
      assert a + b == b;
    }
  }
  lemma {:induction false} NonSpaceOfWord(w: string)
    requires forall i :: 0 <= i < |w| ==> !IsSpace(w[i])
    ensures NonSpace(w) == w
    decreases |w|
  {
    if |w| > 0 {
      NonSpaceOfWord(w[1..]);
    }
  }

  lemma {:induction false} NonSpaceOfBlank(s: string)
    requires forall i :: 0 <= i < |s| ==> IsSpace(s[i])
    ensures NonSpace(s) == []
    decreases |s|
  {
    if |s| > 0 {
      NonSpaceOfBlank(s[1..]);
    }
  }

  lemma {:induction false} NonSpaceOfDropSpaces(s: string)
    ensures NonSpace(DropSpaces(s)) == NonSpace(s)
    decreases |s|
  {
    if |s| > 0 && IsSpace(s[0]) {
      NonSpaceOfDropSpaces(s[1..]);
    }
  }

  lemma NonSpaceOfWordThen(w: string, rest: string)
    requires forall i :: 0 <= i < |w| ==> !IsSpace(w[i])
    ensures NonSpace(w + rest) == w + NonSpace(rest)
  {
    NonSpaceAppend(w, rest);
    NonSpaceOfWord(w);
  }

  lemma ConcatCons(w: string, ws: seq<string>)
    ensures Concat([w] + ws) == w + Concat(ws)
  {
    assert ([w] + ws)[1..] == ws;
  }

  lemma {:induction false} NonSpaceOfTrimRight(s: string)
    ensures NonSpace(TrimRight(s)) == NonSpace(s)
    decreases |s|
  {
    if |s| > 0 && IsSpace(s[|s| - 1]) {
      var p := s[..|s| - 1];
      assert TrimRight(s) == TrimRight(p);
      assert s == p + [s[|s| - 1]];
      NonSpaceAppend(p, [s[|s| - 1]]);
      assert NonSpace([s[|s| - 1]]) == [];
      NonSpaceOfTrimRight(p);
    } else {
      assert TrimRight(s) == s;
    }
  }

  /** A string is blank after `strip()` exactly when it has no visible character. */
  lemma TrimEmptyIffBlank(s: string)
    ensures Trim(s) == [] <==> NonSpace(s) == []
    ensures NonSpace(Trim(s)) == NonSpace(s)
  {
    NonSpaceOfDropSpaces(s);
    NonSpaceOfTrimRight(DropSpaces(s));
    var t := Trim(s);
    if t != [] {
      var _ := TrimSlice(s);
      assert NonSpace(t) == [t[0]] + NonSpace(t[1..]);
    }
  }

  /** `split()` keeps every visible character, in order, and nothing else. */
  lemma {:induction false} NonSpaceIsWords(s: string)
    ensures NonSpace(s) == Concat(Words(s))
    decreases |s|
  {
    var t := DropSpaces(s);
    NonSpaceOfDropSpaces(s);
    if t == [] {
      assert Words(s) == [];
    } else {
      var w := TakeWord(t);
      var rest := t[|w|..];
      assert t == w + rest;
      NonSpaceOfWordThen(w, rest);
      NonSpaceIsWords(rest);
      assert Words(s) == [w] + Words(rest);
      ConcatCons(w, Words(rest));
    }
  }

  lemma {:induction false} NonSpaceOfJoin(ws: seq<string>)
    requires AllWords(ws)
    ensures NonSpace(Join(ws, " ")) == Concat(ws)
    decreases |ws|
  {
    if |ws| == 1 {
      NonSpaceOfWord(ws[0]);
      assert Concat(ws) == ws[0] + Concat([]);
    } else if |ws| > 1 {
      NonSpaceAppend(ws[0] + " ", Join(ws[1..], " "));
      NonSpaceAppend(ws[0], " ");
      NonSpaceOfWord(ws[0]);
      assert NonSpace(" ") == [];
      NonSpaceOfJoin(ws[1..]);
    }
  }

  /** Joining words with single spaces gives normally spaced text. */
  lemma {:induction false} JoinWordsWellSpaced(ws: seq<string>)
    requires AllWords(ws)
    ensures WellSpaced(Join(ws, " "))
    ensures |ws| > 0 ==> |Join(ws, " ")| > 0
    decreases |ws|
  {
    if |ws| == 1 {
      assert Join(ws, " ") == ws[0];
    } else if |ws| > 1 {
      JoinWordsWellSpaced(ws[1..]);
      var w, t := ws[0], Join(ws[1..], " ");
      var s := w + " " + t;
      assert Join(ws, " ") == s;
      assert |t| > 0;
      forall i | 0 <= i < |s| && IsSpace(s[i]) ensures s[i] == ' ' {
        if i > |w| {
          assert s[i] == t[i - |w| - 1];
        }
      }
      assert s[|s| - 1] == t[|t| - 1];
      forall i, j | 0 <= i && j == i + 1 && j < |s| ensures !IsSpace(s[i]) || !IsSpace(s[j]) {
        if i > |w| {
          assert s[i] == t[i - |w| - 1] && s[j] == t[j - |w| - 1];
        } else if i == |w| {
          assert s[j] == t[0];
        }
      }
    }
  }

  lemma WordsOfSpacePrefix(s: string)
    ensures Words([' '] + s) == Words(s)
  {
    assert ([' '] + s)[1..] == s;
    assert DropSpaces([' '] + s) == DropSpaces(s);
  }

  lemma {:induction false} TakeWordOfWord(w: string, rest: string)
    requires IsWord(w)
    requires rest == [] || IsSpace(rest[0])
    ensures TakeWord(w + rest) == w
    decreases |w|
  {
    assert (w + rest)[0] == w[0];
    assert (w + rest)[1..] == w[1..] + rest;
    if |w| == 1 {
      assert w[1..] + rest == rest;
      assert TakeWord(rest) == [];
      assert w == [w[0]];
    } else {
      TakeWordOfWord(w[1..], rest);
      assert w == [w[0]] + w[1..];
    }
  }

  /** The words of a word followed by a space-led (or empty) rest. */
  lemma WordsOfWordThen(w: string, rest: string)
    requires IsWord(w)
    requires rest == [] || IsSpace(rest[0])
    ensures Words(w + rest) == [w] + Words(rest)
  {
    var s := w + rest;
    assert s[0] == w[0];
    assert DropSpaces(s) == s;
    TakeWordOfWord(w, rest);
    assert s[|w|..] == rest;
    if rest == [] {
      assert Words(rest) == [];
    }
  }

  lemma JoinStep(ws: seq<string>)
    requires |ws| > 1
    ensures Join(ws, " ") == ws[0] + ([' '] + Join(ws[1..], " "))
  {
    AppendAssoc(ws[0], " ", Join(ws[1..], " "));
  }

  lemma WordsOfJoinStep(ws: seq<string>)
    requires |ws| > 1 && IsWord(ws[0])
    ensures Words(Join(ws, " ")) == [ws[0]] + Words(Join(ws[1..], " "))
  {
    var t := Join(ws[1..], " ");
    JoinStep(ws);
    WordsOfWordThen(ws[0], [' '] + t);
    WordsOfSpacePrefix(t);
  }

  lemma WordsOfOneWord(w: string)
    requires IsWord(w)
    ensures Words(w) == [w]
  {
    assert DropSpaces(w) == w;
    var tw := TakeWord(w);
    assert |tw| == |w| by {
      if |tw| < |w| {
        assert false;
      }
    }
    assert tw == w;
    assert w[|w|..] == [];
    assert Words(w[|w|..]) == [];
  }

  /** Round trip: splitting words joined by single spaces gives back the words. */
  lemma {:induction false} WordsOfJoin(ws: seq<string>)
    requires AllWords(ws)
    ensures Words(Join(ws, " ")) == ws
    decreases |ws|
  {
    if |ws| == 0 {
      assert Words([]) == [];
    } else if |ws| == 1 {
      WordsOfOneWord(ws[0]);
    } else {
      WordsOfJoinStep(ws);
      WordsOfJoin(ws[1..]);
      assert [ws[0]] + ws[1..] == ws;
    }
  }

  /** `" ".join(s.split())` normalises spacing and keeps every visible character. */
  lemma CollapseSpec(s: string)
    ensures WellSpaced(Collapse(s))
    ensures NonSpace(Collapse(s)) == NonSpace(s)
  {
    WordsAreWords(s);
    JoinWordsWellSpaced(Words(s));
    NonSpaceOfJoin(Words(s));
    NonSpaceIsWords(s);
  }

  /** A normally spaced string with a space splits there into a word and a normally spaced rest. */
  lemma SplitWellSpaced(s: string) returns (w: string, t: string)
    requires WellSpaced(s) && s != []
    ensures IsWord(w)
    ensures t == [] ==> s == w
    ensures t != [] ==> s == w + ([' '] + t) && WellSpaced(t)
    ensures |t| < |s|
  {
    w := TakeWord(s);
    assert |w| > 0;
    if |w| == |s| {
      t := [];
      assert s[..|w|] == s;
    } else {
      assert s[|w|] == ' ';
      t := s[|w| + 1..];
      SplitAt(s, |w|, |w| + 1);
      assert s[|w|..|w| + 1] == [' '];
      assert |w| + 1 < |s| && !IsSpace(s[|w| + 1]);
      forall i | 0 <= i < |t| && IsSpace(t[i]) ensures t[i] == ' ' {
        assert t[i] == s[|w| + 1 + i];
      }
      assert t[0] == s[|w| + 1] && t[|t| - 1] == s[|s| - 1];
      forall i, j | 0 <= i && j == i + 1 && j < |t| ensures !IsSpace(t[i]) || !IsSpace(t[j]) {
        assert t[i] == s[|w| + 1 + i] && t[j] == s[|w| + 1 + j];
      }
    }
  }

  lemma WordsOfWordSpaceThen(w: string, t: string)
    requires IsWord(w)
    ensures Words(w + ([' '] + t)) == [w] + Words(t)
  {
    WordsOfWordThen(w, [' '] + t);
    WordsOfSpacePrefix(t);
  }

  lemma JoinCons(w: string, ws: seq<string>)
    requires |ws| > 0
    ensures Join([w] + ws, " ") == w + ([' '] + Join(ws, " "))
  {
    assert ([w] + ws)[1..] == ws;
    AppendAssoc(w, " ", Join(ws, " "));
  }

  /** Normally spaced text is left alone by whitespace collapsing. */
  lemma {:induction false} CollapseOfWellSpaced(s: string)
    requires WellSpaced(s)
    ensures Collapse(s) == s
    decreases |s|
  {
    if s == [] {
      assert Words(s) == [];
    } else {
      var w, t := SplitWellSpaced(s);
      if t == [] {
        WordsOfOneWord(w);
      } else {
        WordsOfWordSpaceThen(w, t);
        CollapseOfWellSpaced(t);
        assert Join(Words(t), " ") == t;
        assert Words(t) != [];
        JoinCons(w, Words(t));
      }
    }
  }

  lemma CollapseIdempotent(s: string)
    ensures Collapse(Collapse(s)) == Collapse(s)
  {
    CollapseSpec(s);
    CollapseOfWellSpaced(Collapse(s));
  }

  /** Normally spaced text has nothing for `strip()` to remove. */
  lemma TrimOfWellSpaced(s: string)
    requires WellSpaced(s)
    ensures Trim(s) == s
  {
    TrimOfTrimmed(s);
  }

  function Count(s: string, c: char): nat
  {
    if |s| == 0 then 0 else (if s[0] == c then 1 else 0) + Count(s[1..], c)
  }

  /** Python's `s.split(c)` with a one-character separator. */
  function SplitOn(s: string, c: char): (r: seq<string>)
    ensures |r| == Count(s, c) + 1
    ensures forall k :: 0 <= k < |r| ==> c !in r[k]
  {
    if |s| == 0 then [[]]
    else
      var rest := SplitOn(s[1..], c);
      if s[0] == c then [[]] + rest else [[s[0]] + rest[0]] + rest[1..]
  }

  lemma {:induction false} SplitOnAbsent(w: string, c: char)
    requires c !in w
    ensures SplitOn(w, c) == [w]
    decreases |w|
  {
    if |w| > 0 {
      assert w[0] != c;
      SplitOnAbsent(w[1..], c);
      assert [w[0]] + w[1..] == w;
    } else {
      assert w == [];
    }
  }

  lemma {:induction false} SplitOnPrefix(w: string, c: char, rest: string)
    requires c !in w
    ensures SplitOn(w + [c] + rest, c) == [w] + SplitOn(rest, c)
    decreases |w|
  {
    var s := w + [c] + rest;
    if |w| == 0 {
      assert s[0] == c && s[1..] == rest;
      assert w == [];
    } else {
      assert s[0] == w[0] && w[0] != c;
      assert s[1..] == w[1..] + [c] + rest;
      SplitOnPrefix(w[1..], c, rest);
      var r := SplitOn(s[1..], c);
      assert r[0] == w[1..] && r[1..] == SplitOn(rest, c);
      assert [w[0]] + w[1..] == w;
    }
  }

  /** Round trip: splitting a join of separator-free pieces gives back the pieces. */
  lemma {:induction false} SplitOfJoin(ps: seq<string>, c: char)
    requires |ps| >= 1
    requires forall k :: 0 <= k < |ps| ==> c !in ps[k]
    ensures SplitOn(Join(ps, [c]), c) == ps
    decreases |ps|
  {
    if |ps| == 1 {
      SplitOnAbsent(ps[0], c);
    } else {
      SplitOfJoin(ps[1..], c);
      SplitOnPrefix(ps[0], c, Join(ps[1..], [c]));
      assert [ps[0]] + ps[1..] == ps;
    }
  }

  /** Round trip: re-joining the pieces of a split with the separator restores the input. */
  lemma {:induction false} JoinOfSplit(s: string, c: char)
    ensures Join(SplitOn(s, c), [c]) == s
    decreases |s|
  {
    if |s| > 0 {
      var rest := SplitOn(s[1..], c);
      JoinOfSplit(s[1..], c);
      if s[0] == c {
        assert SplitOn(s, c) == [[]] + rest;
        assert s == [] + [c] + s[1..];
      } else if |rest| == 1 {
        assert SplitOn(s, c) == [[s[0]] + rest[0]];
      } else {
        assert SplitOn(s, c) == [[s[0]] + rest[0]] + rest[1..];
        assert Join(rest, [c]) == rest[0] + [c] + Join(rest[1..], [c]);
      }
    }
  }

  /** A trailing separator adds one empty piece. */
  lemma {:induction false} SplitOnTrailing(x: string, c: char)
    ensures SplitOn(x + [c], c) == SplitOn(x, c) + [[]]
    decreases |x|
  {
    if |x| > 0 {
      assert (x + [c])[1..] == x[1..] + [c];
      SplitOnTrailing(x[1..], c);
    }
  }

  /** A character absent from the input is absent from every piece of its split. */
  lemma {:induction false} SplitOnKeepsAbsent(x: string, c: char, d: char)
    requires d !in x
    ensures forall k :: 0 <= k < |SplitOn(x, c)| ==> d !in SplitOn(x, c)[k]
    decreases |x|
  {
    if |x| > 0 {
      SplitOnKeepsAbsent(x[1..], c, d);
    }
  }

  lemma {:induction false} CountAppend(a: string, b: string, c: char)
    ensures Count(a + b, c) == Count(a, c) + Count(b, c)
    decreases |a|
  {
    if |a| > 0 {
      assert (a + b)[0] == a[0];
      assert (a + b)[1..] == a[1..] + b;
      CountAppend(a[1..], b, c);
    } else {
      assert a + b == b;
    }
  }
  /** Python's `s.replace(pat, rep)`: non-overlapping occurrences, left to right. */
  function Replace(s: string, pat: string, rep: string): string
    requires |pat| > 0
    decreases |s|
  {
    if |s| < |pat| then s
    else if s[..|pat|] == pat then rep + Replace(s[|pat|..], pat, rep)
    else [s[0]] + Replace(s[1..], pat, rep)
  }

  /** A pattern one of whose characters never occurs is never replaced. */
  lemma {:induction false} ReplaceMissing(s: string, pat: string, rep: string, k: nat)
    requires k < |pat| && pat[k] !in s
    ensures Replace(s, pat, rep) == s
    decreases |s|
  {
    if |s| >= |pat| {
      assert s[..|pat|][k] == s[k];
      ReplaceMissing(s[1..], pat, rep, k);
      assert s == [s[0]] + s[1..];
    }
  }

  /** An occurrence at the front is replaced. */
  lemma ReplaceAtFront(pat: string, rest: string, rep: string)
    requires |pat| > 0
    ensures Replace(pat + rest, pat, rep) == rep + Replace(rest, pat, rep)
  {
    assert (pat + rest)[..|pat|] == pat && (pat + rest)[|pat|..] == rest;
  }

  /** A character that cannot start the pattern is copied. */
  lemma ReplaceSkip(c: char, rest: string, pat: string, rep: string)
    requires |pat| > 0 && c != pat[0]
    ensures Replace([c] + rest, pat, rep) == [c] + Replace(rest, pat, rep)
  {
    if |[c] + rest| >= |pat| {
      assert ([c] + rest)[1..] == rest;
    }
  }

  /** Text before the first occurrence is copied; the occurrence is replaced. */
  lemma {:induction false} ReplaceAfterPlain(a: string, pat: string, rest: string, rep: string)
    requires |pat| > 0 && pat[0] !in a
    ensures Replace(a + (pat + rest), pat, rep) == a + (rep + Replace(rest, pat, rep))
    decreases |a|
  {
    if |a| == 0 {
      assert a + (pat + rest) == pat + rest;
      ReplaceAtFront(pat, rest, rep);
    } else {
      assert a + (pat + rest) == [a[0]] + (a[1..] + (pat + rest));
      ReplaceSkip(a[0], a[1..] + (pat + rest), pat, rep);
      ReplaceAfterPlain(a[1..], pat, rest, rep);
      assert a == [a[0]] + a[1..];
    }
  }

  /** Deletes every occurrence of one character. */
  function Remove(s: string, c: char): (r: string)
    ensures c !in r
  {
    if |s| == 0 then [] else (if s[0] == c then [] else [s[0]]) + Remove(s[1..], c)
  }

  lemma {:induction false} RemoveAbsent(s: string, c: char)
    requires c !in s
    ensures Remove(s, c) == s
    decreases |s|
  {
    if |s| > 0 {
      RemoveAbsent(s[1..], c);
    }
  }

  lemma {:induction false} RemoveAppend(a: string, b: string, c: char)
    ensures Remove(a + b, c) == Remove(a, c) + Remove(b, c)
    decreases |a|
  {
    if |a| > 0 {
      var h := if a[0] == c then [] else [a[0]];
      assert (a + b)[0] == a[0];
      assert (a + b)[1..] == a[1..] + b;
      assert Remove(a + b, c) == h + Remove(a[1..] + b, c);
      RemoveAppend(a[1..], b, c);
      assert Remove(a, c) == h + Remove(a[1..], c);
    } else {
      assert a + b == b;
    }
  }
  /** Replacing a one-character pattern by nothing is deleting that character. */
  lemma {:induction false} ReplaceCharByNothing(s: string, c: char)
    ensures Replace(s, [c], []) == Remove(s, c)
    decreases |s|
  {
    if |s| > 0 {
      ReplaceCharByNothing(s[1..], c);
    }
  }

  /** Deleting the doubled character `cc` first changes nothing once every `c` is deleted. */
  lemma {:induction false} RemoveAfterReplaceDouble(s: string, c: char)
    ensures Remove(Replace(s, [c, c], []), c) == Remove(s, c)
    decreases |s|
  {
    if |s| >= 2 {
      if s[..2] == [c, c] {
        assert Replace(s, [c, c], []) == Replace(s[2..], [c, c], []);
        RemoveAfterReplaceDouble(s[2..], c);
        assert s == [c, c] + s[2..];
        RemoveAppend([c, c], s[2..], c);
        assert Remove([c], c) == [] + Remove([], c);
        assert Remove([c, c], c) == [] + Remove([c], c);
        assert Remove(s, c) == Remove(s[2..], c);
      } else {
        assert Replace(s, [c, c], []) == [s[0]] + Replace(s[1..], [c, c], []);
        RemoveAfterReplaceDouble(s[1..], c);
        RemoveAppend([s[0]], Replace(s[1..], [c, c], []), c);
        assert s == [s[0]] + s[1..];
        RemoveAppend([s[0]], s[1..], c);
      }
    } else {
      assert Replace(s, [c, c], []) == s;
    }
  }
  lemma {:induction false} RemoveCommutes(s: string, c: char, d: char)
    ensures Remove(Remove(s, c), d) == Remove(Remove(s, d), c)
    decreases |s|
  {
    if |s| > 0 {
      RemoveCommutes(s[1..], c, d);
      RemoveAppend(if s[0] == c then [] else [s[0]], Remove(s[1..], c), d);
      RemoveAppend(if s[0] == d then [] else [s[0]], Remove(s[1..], d), c);
    }
  }

  /** `sub` occurs in `s` as a contiguous substring. */
  function Contains(s: string, sub: string): bool
    decreases |s|
  {
    |s| >= |sub| && (s[..|sub|] == sub || (|s| > 0 && Contains(s[1..], sub)))
  }

  /** A text still contains what its suffix contains. */
  lemma {:induction false} ContainsSuffix(x: string, y: string, sub: string)
    requires Contains(y, sub)
    ensures Contains(x + y, sub)
    decreases |x|
  {
    if |x| > 0 {
      ContainsSuffix(x[1..], y, sub);
      assert (x + y)[1..] == x[1..] + y;
    } else {
      assert x + y == y;
    }
  }

  lemma {:induction false} ContainsAt(s: string, sub: string, i: nat)
    requires i + |sub| <= |s| && s[i..i + |sub|] == sub
    ensures Contains(s, sub)
    decreases i
  {
    if i > 0 {
      assert s[1..][i - 1..i - 1 + |sub|] == sub;
      ContainsAt(s[1..], sub, i - 1);
    }
  }

  /** A text without the first character of `sub` does not contain `sub`. */
  lemma {:induction false} ContainsFirstAbsent(s: string, sub: string)
    requires |sub| > 0 && sub[0] !in s
    ensures !Contains(s, sub)
    decreases |s|
  {
    if |s| >= |sub| {
      assert s[..|sub|][0] == s[0];
      if |s| > 0 {
        ContainsFirstAbsent(s[1..], sub);
      }
    }
  }

  /** `s` starts with the lowercase word `p`, ignoring ASCII case. */
  predicate StartsWithCi(s: string, p: string)
  {
    |s| >= |p| && Lower(s[..|p|]) == p
  }

  // ---------------------------------------------------------------------------
  // ASCII lowercasing commutes with the whitespace operations
  // ---------------------------------------------------------------------------

  /** Every string of a list, lowercased. */
  function LowerAll(ws: seq<string>): (r: seq<string>)
    ensures |r| == |ws| && forall k :: 0 <= k < |r| ==> r[k] == Lower(ws[k])
  {
    if |ws| == 0 then [] else [Lower(ws[0])] + LowerAll(ws[1..])
  }

  /** Lowercasing is idempotent. */
  lemma LowerTwice(s: string)
    ensures Lower(Lower(s)) == Lower(s)
  {
  }

  lemma LowerAppend(a: string, b: string)
    ensures Lower(a + b) == Lower(a) + Lower(b)
  {
  }

  lemma LowerSlice(s: string, i: nat, j: nat)
    requires i <= j <= |s|
    ensures Lower(s)[i..j] == Lower(s[i..j])
  {
  }

  /** The leading whitespace ends where the first visible character sits. */
  lemma LeadCountUnique(x: string, n: nat)
    requires n <= |x| && forall k :: 0 <= k < n ==> IsSpace(x[k])
    requires n == |x| || !IsSpace(x[n])
    ensures LeadCount(x) == n
  {
  }

  /** The trailing whitespace starts after the last visible character. */
  lemma KeepCountUnique(x: string, n: nat)
    requires n <= |x| && forall k :: n <= k < |x| ==> IsSpace(x[k])
    requires n == 0 || !IsSpace(x[n - 1])
    ensures KeepCount(x) == n
  {
  }

  lemma LeadCountOfLower(s: string)
    ensures LeadCount(Lower(s)) == LeadCount(s)
  {
    var n := LeadCount(s);
    var u := Lower(s);
    forall k | 0 <= k < |s|
      ensures IsSpace(u[k]) == IsSpace(s[k])
    {
      LowerCharSpace(s[k]);
    }
    LeadCountUnique(u, n);
  }

  lemma KeepCountOfLower(s: string)
    ensures KeepCount(Lower(s)) == KeepCount(s)
  {
    var n := KeepCount(s);
    var u := Lower(s);
    forall k | 0 <= k < |s|
      ensures IsSpace(u[k]) == IsSpace(s[k])
    {
      LowerCharSpace(s[k]);
    }
    KeepCountUnique(u, n);
  }

  /** `strip()` and lowercasing commute. */
  lemma TrimOfLower(s: string)
    ensures Trim(Lower(s)) == Lower(Trim(s))
  {
    var d := DropSpaces(s);
    DropSpacesOfLower(s);
    KeepCountOfLower(d);
    LowerSlice(d, 0, KeepCount(d));
  }

  /** The longest whitespace-free prefix is determined by where the first whitespace sits. */
  lemma TakeWordUnique(x: string, n: nat)
    requires n <= |x| && forall k :: 0 <= k < n ==> !IsSpace(x[k])
    requires n == |x| || IsSpace(x[n])
    ensures TakeWord(x) == x[..n]
  {
  }

  lemma TakeWordOfLower(s: string)
    ensures TakeWord(Lower(s)) == Lower(TakeWord(s))
  {
    var w := TakeWord(s);
    var n := |w|;
    var u := Lower(s);
    forall k | 0 <= k < n
      ensures !IsSpace(u[k])
    {
      assert s[k] == w[k];
      LowerCharSpace(s[k]);
    }
    if n < |s| {
      LowerCharSpace(s[n]);
    }
    TakeWordUnique(u, n);
    LowerSlice(s, 0, n);
  }

  /** Lowercasing never turns a character into whitespace or back. */
  lemma LowerCharSpace(c: char)
    ensures IsSpace(LowerChar(c)) == IsSpace(c)
  {
  }

  /** `split()` and lowercasing commute. */
  lemma {:induction false} WordsOfLower(s: string)
    ensures Words(Lower(s)) == LowerAll(Words(s))
    decreases |s|
  {
    var t := DropSpaces(s);
    DropSpacesOfLower(s);
    if t != [] {
      var w := TakeWord(t);
      var rest := t[|w|..];
      TakeWordOfLower(t);
      LowerSlice(t, |w|, |t|);
      WordsOfLower(rest);
      WordsStep(s);
      WordsStep(Lower(s));
      var lt := Lower(t);
      assert DropSpaces(Lower(s)) == lt;
      assert TakeWord(lt) == Lower(w);
      assert lt[|Lower(w)|..] == Lower(rest);
      assert Words(Lower(s)) == [Lower(w)] + Words(Lower(rest));
      var ws := [w] + Words(rest);
      assert ws[0] == w && ws[1..] == Words(rest);
      assert LowerAll(ws) == [Lower(w)] + LowerAll(Words(rest));
    } else {
      assert Lower(t) == [];
    }
  }

  /** One step of `split()`: the first word, then the words of what follows it. */
  lemma WordsStep(s: string)
    requires DropSpaces(s) != []
    ensures Words(s) == [TakeWord(DropSpaces(s))] + Words(DropSpaces(s)[|TakeWord(DropSpaces(s))|..])
  {
  }

  lemma DropSpacesOfLower(s: string)
    ensures DropSpaces(Lower(s)) == Lower(DropSpaces(s))
  {
    LeadCountOfLower(s);
    LowerSlice(s, LeadCount(s), |s|);
  }

  /** Joining with one space and lowercasing commute. */
  lemma {:induction false} JoinOfLower(ws: seq<string>)
    ensures Join(LowerAll(ws), " ") == Lower(Join(ws, " "))
    decreases |ws|
  {
    if |ws| > 1 {
      JoinOfLower(ws[1..]);
      assert LowerAll(ws)[1..] == LowerAll(ws[1..]);
      LowerAppend(ws[0] + " ", Join(ws[1..], " "));
      LowerAppend(ws[0], " ");
    }
  }

  /** Whitespace collapsing and lowercasing commute. */
  lemma CollapseOfLower(s: string)
    ensures Collapse(Lower(s)) == Lower(Collapse(s))
  {
    WordsOfLower(s);
    JoinOfLower(Words(s));
  }

  /** Python `zip` mapped through `f`, on two sequences of the same length. */
  function Zip<A, B, C>(f: (A, B) -> C, a: seq<A>, b: seq<B>): (r: seq<C>)
    requires |a| == |b|
    ensures |r| == |a|
  {
    if |a| == 0 then []
    else Zip(f, a[..|a| - 1], b[..|a| - 1]) + [f(a[|a| - 1], b[|a| - 1])]
  }

  lemma ZipStep<A, B, C>(f: (A, B) -> C, a: seq<A>, b: seq<B>, i: nat)
    requires i < |a| && i < |b|
    ensures Zip(f, a[..i + 1], b[..i + 1]) == Zip(f, a[..i], b[..i]) + [f(a[i], b[i])]
  {
    assert a[..i + 1][..i] == a[..i];
    assert b[..i + 1][..i] == b[..i];
  }

  /** Position `k` of a zip is `f` of the two elements at `k`. */
  lemma {:induction false} ZipAt<A, B, C>(f: (A, B) -> C, a: seq<A>, b: seq<B>, k: nat)
    requires |a| == |b| && k < |a|
    ensures Zip(f, a, b)[k] == f(a[k], b[k])
    decreases |a|
  {
    var n := |a|;
    if k < n - 1 {
      ZipAt(f, a[..n - 1], b[..n - 1], k);
      assert a[..n - 1][k] == a[k] && b[..n - 1][k] == b[k];
    }
  }
}
