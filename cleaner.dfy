/**
 * Cleaning of header and cell texts: HTML tags become spaces, the four
 * common entities are decoded, whitespace is collapsed; headers are
 * normalised, compared against a threshold and fused with a sub-header row.
 */
module Cleaner {
  import opened Wrappers
  import opened Text
  import Numbers

  // ---------------------------------------------------------------------------
  // The tag pattern `<[^>]+>`
  // ---------------------------------------------------------------------------

  /** Offset of the first `>` in `s`, if any. */
  function CloseAt(s: string): (r: Option<nat>)
    ensures r.Some? ==> r.value < |s| && s[r.value] == '>' && '>' !in s[..r.value]
    ensures r.None? ==> '>' !in s
  {
    if |s| == 0 then None
    else if s[0] == '>' then Some(0)
    else
      match CloseAt(s[1..])
      case None => None
      case Some(k) =>
        assert s[..k + 1] == [s[0]] + s[1..][..k];
        Some(k + 1)
  }

  /** A complete tag: `<`, one or more characters other than `>`, then `>`. */
  predicate IsTag(t: string)
  {
    |t| >= 3 && t[0] == '<' && t[|t| - 1] == '>' && '>' !in t[1..|t| - 1]
  }

  /**
   * The length of the tag the pattern matches at the start of `s`: the
   * body runs up to the first `>` and must not be empty.
   */
  function TagLength(s: string): (r: Option<nat>)
    ensures r.Some? ==> r.value <= |s| && IsTag(s[..r.value])
  {
    if |s| > 0 && s[0] == '<' then
      match CloseAt(s[1..])
      case None => None
      case Some(k) =>
        if k >= 1 then
          assert s[..k + 2][1..k + 1] == s[1..][..k];
          Some(k + 2)
        else None
    else None
  }

  /** The pattern matches exactly the tags: a tag at the start of `s` is the one found. */
  lemma TagLengthOfTag(s: string, n: nat)
    requires n <= |s| && IsTag(s[..n])
    ensures TagLength(s) == Some(n)
  {
    var t := s[1..];
    assert t[n - 2] == '>';
    assert t[..n - 2] == s[..n][1..n - 1];
  }

  /** `re.sub(r"<[^>]+>", " ", s)`: every tag, left to right, becomes one space. */
  function TagsToSpace(s: string): string
    decreases |s|
  {
    if |s| == 0 then []
    else
      match TagLength(s)
      case Some(n) => " " + TagsToSpace(s[n..])
      case None => [s[0]] + TagsToSpace(s[1..])
  }

  /** No tag starts anywhere in `s`. */
  predicate NoTag(s: string)
  {
    forall i :: 0 <= i < |s| ==> TagLength(s[i..]).None?
  }

  /** Text without `<` holds no tag and is left alone. */
  lemma {:induction false} TagsToSpaceOfPlain(s: string)
    requires '<' !in s
    ensures TagsToSpace(s) == s
    decreases |s|
  {
    if |s| > 0 {
      TagsToSpaceOfPlain(s[1..]);
    }
  }

  /** Text before the first tag is kept; the tag becomes one space. */
  lemma {:induction false} TagsToSpaceOfTagged(a: string, t: string, b: string)
    requires '<' !in a && IsTag(t)
    ensures TagsToSpace(a + (t + b)) == a + (" " + TagsToSpace(b))
    decreases |a|
  {
    var s := a + (t + b);
    if |a| == 0 {
      assert s == t + b && s[..|t|] == t;
      TagLengthOfTag(s, |t|);
      assert s[|t|..] == b;
    } else {
      assert s[0] == a[0] && s[1..] == a[1..] + (t + b);
      TagsToSpaceOfTagged(a[1..], t, b);
      assert a == [a[0]] + a[1..];
    }
  }

  /** Tags only ever become spaces: no `>` appears that was not there. */
  lemma {:induction false} TagsToSpaceKeepsNoClose(s: string)
    requires '>' !in s
    ensures '>' !in TagsToSpace(s)
    decreases |s|
  {
    if |s| > 0 {
      match TagLength(s)
      case Some(n) =>
        TagsToSpaceKeepsNoClose(s[n..]);
      case None =>
        TagsToSpaceKeepsNoClose(s[1..]);
    }
  }

  lemma NoTagCons(c: char, r: string)
    requires NoTag(r) && TagLength([c] + r).None?
    ensures NoTag([c] + r)
  {
    forall i | 0 <= i < |[c] + r|
      ensures TagLength(([c] + r)[i..]).None?
    {
      if i > 0 {
        assert ([c] + r)[i..] == r[i - 1..];
      }
    }
  }

  /** After the substitution no tag is left (a single pass is enough). */
  lemma {:induction false} NoTagLeft(s: string)
    ensures NoTag(TagsToSpace(s))
    decreases |s|
  {
    if |s| > 0 {
      match TagLength(s)
      case Some(n) =>
        NoTagLeft(s[n..]);
        NoTagCons(' ', TagsToSpace(s[n..]));
      case None =>
        var r := TagsToSpace(s[1..]);
        NoTagLeft(s[1..]);
        if s[0] == '<' {
          match CloseAt(s[1..])
          case None =>
            TagsToSpaceKeepsNoClose(s[1..]);
            assert ([s[0]] + r)[1..] == r;
          case Some(k) =>
            assert k == 0 && s[1] == '>';
            assert TagLength(s[1..]).None?;
            assert r == [s[1]] + TagsToSpace(s[2..]);
            assert ([s[0]] + r)[1..] == r;
        }
        NoTagCons(s[0], r);
    }
  }

  /** Text with no tag in it is left alone. */
  lemma {:induction false} TagsToSpaceOfNoTag(s: string)
    requires NoTag(s)
    ensures TagsToSpace(s) == s
    decreases |s|
  {
    if |s| > 0 {
      assert TagLength(s[0..]).None? && s[0..] == s;
      assert NoTag(s[1..]) by {
        forall i | 0 <= i < |s[1..]| ensures TagLength(s[1..][i..]).None? {
          assert s[1..][i..] == s[i + 1..];
        }
      }
      TagsToSpaceOfNoTag(s[1..]);
    }
  }

  /** Removing tags twice is removing them once. */
  lemma TagsToSpaceIdempotent(s: string)
    ensures TagsToSpace(TagsToSpace(s)) == TagsToSpace(s)
  {
    NoTagLeft(s);
    TagsToSpaceOfNoTag(TagsToSpace(s));
  }

  /** Lowercasing keeps every `<` and `>` where it is, so it keeps the tags. */
  lemma {:induction false} CloseAtOfLower(s: string)
    ensures CloseAt(Lower(s)) == CloseAt(s)
    decreases |s|
  {
    if |s| > 0 {
      LowerSlice(s, 1, |s|);
      CloseAtOfLower(s[1..]);
    }
  }

  lemma TagLengthOfLower(s: string)
    ensures TagLength(Lower(s)) == TagLength(s)
  {
    if |s| > 0 {
      LowerSlice(s, 1, |s|);
      CloseAtOfLower(s[1..]);
    }
  }

  /** Tag removal and lowercasing commute. */
  lemma {:induction false} TagsToSpaceOfLower(s: string)
    ensures TagsToSpace(Lower(s)) == Lower(TagsToSpace(s))
    decreases |s|
  {
    if |s| > 0 {
      var u := Lower(s);
      TagLengthOfLower(s);
      match TagLength(s)
      case Some(n) =>
        LowerSlice(s, n, |s|);
        assert u[n..] == Lower(s[n..]);
        TagsToSpaceOfLower(s[n..]);
        assert TagsToSpace(u) == " " + TagsToSpace(u[n..]);
        assert TagsToSpace(s) == " " + TagsToSpace(s[n..]);
        LowerAppend(" ", TagsToSpace(s[n..]));
        assert Lower(" ") == " ";
      case None =>
        LowerSlice(s, 1, |s|);
        assert u[1..] == Lower(s[1..]);
        TagsToSpaceOfLower(s[1..]);
        assert TagsToSpace(u) == [u[0]] + TagsToSpace(u[1..]);
        assert TagsToSpace(s) == [s[0]] + TagsToSpace(s[1..]);
        LowerAppend([s[0]], TagsToSpace(s[1..]));
        assert Lower([s[0]]) == [u[0]];
    }
  }

  // ---------------------------------------------------------------------------
  // clean_column_name and clean_value
  // ---------------------------------------------------------------------------

  /** `clean_column_name`: tags become spaces, then whitespace is collapsed and stripped. */
  function CleanColumnName(name: string): string
  {
    Trim(Collapse(TagsToSpace(name)))
  }

  /**
   * A cleaned name is normally spaced (no leading, trailing or doubled
   * whitespace, only plain spaces) and keeps every visible character that
   * was not part of a tag; its case is left as it was.
   */
  lemma CleanColumnNameSpec(name: string)
    ensures WellSpaced(CleanColumnName(name))
    ensures NonSpace(CleanColumnName(name)) == NonSpace(TagsToSpace(name))
    ensures Trim(CleanColumnName(name)) == CleanColumnName(name)
  {
    var c := Collapse(TagsToSpace(name));
    CollapseSpec(TagsToSpace(name));
    TrimOfWellSpaced(c);
  }

  /** Cleaning a cleaned name changes nothing more. */
  lemma CleanColumnNameOfClean(name: string)
    requires '<' !in name && WellSpaced(name)
    ensures CleanColumnName(name) == name
  {
    TagsToSpaceOfPlain(name);
    CollapseOfWellSpaced(name);
    TrimOfWellSpaced(name);
  }

  /** Cleaning and lowercasing commute. */
  lemma CleanColumnNameOfLower(name: string)
    ensures CleanColumnName(Lower(name)) == Lower(CleanColumnName(name))
  {
    TagsToSpaceOfLower(name);
    CollapseOfLower(TagsToSpace(name));
    TrimOfLower(Collapse(TagsToSpace(name)));
  }

  /** `"Column<br>Name"` cleans to `"Column Name"`. */
  lemma CleanColumnNameExample(name: string)
    requires name == "Column" + ("<br>" + "Name")
    ensures CleanColumnName(name) == "Column Name"
  {
    ColumnNamePieces();
    TagsToSpaceOfTagged("Column", "<br>", "Name");
    TagsToSpaceOfPlain("Name");
    WordsOfWordSpaceThen("Column", "Name");
    WordsOfOneWord("Name");
    var ws := ["Column"] + ["Name"];
    assert Join(ws, " ") == "Column" + " " + "Name";
    TrimOfTrimmed("Column" + " " + "Name");
  }

  /* Facts about the literals of the example above only; no property of the package. */
  lemma ColumnNamePieces()
    ensures '<' !in "Column" && '<' !in "Name" && IsTag("<br>")
    ensures IsWord("Column") && IsWord("Name")
    ensures " " + "Name" == [' '] + "Name"
    ensures "Column" + " " + "Name" == "Column Name"
  {
  }

  /** The entity replacements of `clean_value`, in their order. */
  function DecodeEntities(s: string): string
  {
    Replace(Replace(Replace(Replace(s, "&nbsp;", " "), "&amp;", "&"), "&lt;", "<"), "&gt;", ">")
  }

  /** `clean_value`: empty stays empty; otherwise tags, then entities, then spacing. */
  function CleanValue(value: string): (r: string)
    ensures value == [] ==> r == []
  {
    if value == [] then []
    else Trim(Collapse(DecodeEntities(TagsToSpace(value))))
  }

  /**
   * A cleaned value is normally spaced and keeps every visible character
   * of the text once tags are spaced out and entities decoded.
   */
  lemma CleanValueSpec(value: string)
    ensures WellSpaced(CleanValue(value))
    ensures Trim(CleanValue(value)) == CleanValue(value)
    ensures value != [] ==> NonSpace(CleanValue(value)) == NonSpace(DecodeEntities(TagsToSpace(value)))
  {
    if value != [] {
      var c := Collapse(DecodeEntities(TagsToSpace(value)));
      CollapseSpec(DecodeEntities(TagsToSpace(value)));
      TrimOfWellSpaced(c);
      TrimEmptyIffBlank(c);
    }
  }

  /** `"Data<br>with&nbsp;HTML"` cleans to `"Data with HTML"`. */
  lemma HtmlValueExample(v: string)
    requires v == "Data" + ("<br>" + ("with" + ("&nbsp;" + "HTML")))
    ensures CleanValue(v) == "Data with HTML"
  {
    HtmlValuePieces();
    var p := "Data" + (" " + "with");
    TagsToSpaceOfTagged("Data", "<br>", "with" + ("&nbsp;" + "HTML"));
    TagsToSpaceOfPlain("with" + ("&nbsp;" + "HTML"));
    DecodeOfNbsp(p, "HTML");
    var ws := ["Data"] + (["with"] + ["HTML"]);
    JoinCons("with", ["HTML"]);
    JoinCons("Data", ["with"] + ["HTML"]);
    AllWordsCons("with", ["HTML"]);
    AllWordsCons("Data", ["with"] + ["HTML"]);
    CleanValueOfWords(v, ws);
  }

  /* Facts about the literals of the example above only; no property of the package. */
  lemma HtmlValuePieces()
    ensures '<' !in "Data" && '<' !in "with" + ("&nbsp;" + "HTML") && IsTag("<br>")
    ensures '&' !in "Data" + (" " + "with") && '&' !in "HTML"
    ensures "Data" + (" " + ("with" + ("&nbsp;" + "HTML"))) == "Data" + (" " + "with") + ("&nbsp;" + "HTML")
    ensures "Data" + (" " + "with") + (" " + "HTML") == "Data" + ([' '] + ("with" + ([' '] + "HTML")))
    ensures IsWord("Data") && IsWord("with") && AllWords(["HTML"])
    ensures "Data" + ([' '] + ("with" + ([' '] + "HTML"))) == "Data with HTML"
    ensures Join(["HTML"], " ") == "HTML"
  {
  }

  /** `&nbsp;` between two stretches without `&` decodes to one space. */
  lemma DecodeOfNbsp(a: string, b: string)
    requires '&' !in a && '&' !in b
    ensures DecodeEntities(a + ("&nbsp;" + b)) == a + (" " + b)
  {
    ReplaceAfterPlain(a, "&nbsp;", b, " ");
    ReplaceMissing(b, "&nbsp;", " ", 0);
    var d := a + (" " + b);
    assert '&' !in d;
    ReplaceMissing(d, "&amp;", "&", 0);
    ReplaceMissing(d, "&lt;", "<", 0);
    ReplaceMissing(d, "&gt;", ">", 0);
  }

  /** A value that decodes to words joined by single spaces cleans to exactly that. */
  lemma CleanValueOfWords(value: string, ws: seq<string>)
    requires value != [] && AllWords(ws)
    requires DecodeEntities(TagsToSpace(value)) == Join(ws, " ")
    ensures CleanValue(value) == Join(ws, " ")
  {
    WordsOfJoin(ws);
    JoinWordsWellSpaced(ws);
    TrimOfWellSpaced(Join(ws, " "));
  }

  // ---------------------------------------------------------------------------
  // normalize_headers and headers_match
  // ---------------------------------------------------------------------------

  /** `normalize_headers`: each header cleaned, then lowercased. */
  function NormalizeHeaders(headers: seq<string>): (r: seq<string>)
    ensures |r| == |headers|
    ensures forall k :: 0 <= k < |r| ==> r[k] == Lower(CleanColumnName(headers[k]))
  {
    seq(|headers|, k requires 0 <= k < |headers| => Lower(CleanColumnName(headers[k])))
  }

  /** Normalised headers are already lowercase and normally spaced. */
  lemma NormalizeHeadersSpec(headers: seq<string>, k: nat)
    requires k < |headers|
    ensures Lower(NormalizeHeaders(headers)[k]) == NormalizeHeaders(headers)[k]
    ensures WellSpaced(NormalizeHeaders(headers)[k])
  {
    var c := CleanColumnName(headers[k]);
    LowerTwice(c);
    CleanColumnNameSpec(headers[k]);
    CleanColumnNameOfLower(c);
    LowerKeepsWellSpaced(c);
  }

  /** Lowercasing keeps spacing as it was. */
  lemma LowerKeepsWellSpaced(s: string)
    requires WellSpaced(s)
    ensures WellSpaced(Lower(s))
  {
    var u := Lower(s);
    forall i | 0 <= i < |u|
      ensures IsSpace(u[i]) == IsSpace(s[i]) && (IsSpace(s[i]) ==> u[i] == s[i])
    {
      LowerCharSpace(s[i]);
    }
  }

  /** Normalisation ignores letter case. */
  lemma NormalizeOfLower(headers: seq<string>)
    ensures NormalizeHeaders(LowerAll(headers)) == NormalizeHeaders(headers)
  {
    forall k | 0 <= k < |headers|
      ensures NormalizeHeaders(LowerAll(headers))[k] == NormalizeHeaders(headers)[k]
    {
      var h := headers[k];
      CleanColumnNameOfLower(h);
      LowerTwice(CleanColumnName(h));
    }
  }

  /** The number of positions at which two equally long lists agree. */
  function MatchCount(a: seq<string>, b: seq<string>): (n: nat)
    requires |a| == |b|
    ensures n <= |a|
  {
    if |a| == 0 then 0
    else (if a[0] == b[0] then 1 else 0) + MatchCount(a[1..], b[1..])
  }

  /** All positions agree exactly when the lists are equal. */
  lemma {:induction false} MatchCountFull(a: seq<string>, b: seq<string>)
    requires |a| == |b|
    ensures MatchCount(a, b) == |a| <==> a == b
    decreases |a|
  {
    if |a| > 0 {
      MatchCountFull(a[1..], b[1..]);
      if a[0] == b[0] && a[1..] == b[1..] {
        assert a == [a[0]] + a[1..] && b == [b[0]] + b[1..];
      }
      if a == b {
        assert a[1..] == b[1..];
      }
    }
  }

  /**
   * `headers_match` with threshold `num / den`: equal lengths, and then
   * either both empty or the share of positions whose normalised texts are
   * equal reaches the threshold (`matches / len >= num / den`, cross-multiplied).
   */
  function HeadersMatch(h1: seq<string>, h2: seq<string>, num: int, den: int): (r: bool)
    requires den > 0
    ensures |h1| != |h2| ==> !r
    ensures |h1| == |h2| == 0 ==> r
  {
    if |h1| != |h2| then false
    else if |h1| == 0 then true
    else MatchCount(NormalizeHeaders(h1), NormalizeHeaders(h2)) * den >= num * |h1|
  }

  /** The default threshold 0.8. */
  const MatchNum := 4
  const MatchDen := 5

  /** Lists that normalise to the same texts match for any threshold up to 1. */
  lemma HeadersMatchSame(h1: seq<string>, h2: seq<string>, num: int, den: int)
    requires den > 0 && num <= den && |h1| == |h2|
    requires NormalizeHeaders(h1) == NormalizeHeaders(h2)
    ensures HeadersMatch(h1, h2, num, den)
  {
    if |h1| > 0 {
      MatchCountFull(NormalizeHeaders(h1), NormalizeHeaders(h2));
      Numbers.MulMono(num, den, |h1|);
    }
  }

  /** `headers_match(h, h)` holds whenever the threshold is at most 1. */
  lemma HeadersMatchReflexive(h: seq<string>, num: int, den: int)
    requires den > 0 && num <= den
    ensures HeadersMatch(h, h, num, den)
  {
    HeadersMatchSame(h, h, num, den);
  }

  /** A header list matches its lowercased copy (the "different case" demo). */
  lemma HeadersMatchIgnoresCase(h: seq<string>, num: int, den: int)
    requires den > 0 && num <= den
    ensures HeadersMatch(h, LowerAll(h), num, den)
  {
    NormalizeOfLower(h);
    HeadersMatchSame(h, LowerAll(h), num, den);
  }

  /**
   * Under the default threshold, lists of fewer than five headers match
   * only when every position matches: one differing header out of three
   * gives 2/3 < 0.8 (the "one different" demo).
   */
  lemma ShortHeadersMatchExactly(h1: seq<string>, h2: seq<string>)
    requires |h1| == |h2| < 5
    ensures HeadersMatch(h1, h2, MatchNum, MatchDen) <==> NormalizeHeaders(h1) == NormalizeHeaders(h2)
  {
    if |h1| > 0 {
      var m := MatchCount(NormalizeHeaders(h1), NormalizeHeaders(h2));
      MatchCountFull(NormalizeHeaders(h1), NormalizeHeaders(h2));
      assert m * 5 >= 4 * |h1| <==> m == |h1|;
    }
  }

  // ---------------------------------------------------------------------------
  // merge_sub_header
  // ---------------------------------------------------------------------------

  /**
   * One position of `merge_sub_header`: the sub-header alone when the
   * header is blank, `"h sh"` when both have text, else the header.
   */
  function FuseCell(h: string, sh: string): string
  {
    if Trim(sh) != [] && Trim(h) == [] then Trim(sh)
    else if Trim(sh) != [] && Trim(h) != [] then Trim(h) + " " + Trim(sh)
    else Trim(h)
  }

  /**
   * A fused cell is stripped, holds the visible text of the header and
   * then of the sub-header, and is blank only when both are.
   */
  lemma FuseCellSpec(h: string, sh: string)
    ensures Trim(FuseCell(h, sh)) == FuseCell(h, sh)
    ensures NonSpace(FuseCell(h, sh)) == NonSpace(h) + NonSpace(sh)
    ensures FuseCell(h, sh) == [] <==> NonSpace(h) == [] && NonSpace(sh) == []
  {
    TrimEmptyIffBlank(h);
    TrimEmptyIffBlank(sh);
    if Trim(sh) != [] && Trim(h) != [] {
      TrimEnds(h);
      TrimEnds(sh);
      JoinTrimmed(Trim(h), Trim(sh));
    } else if Trim(sh) != [] {
      TrimTwice(sh);
    } else {
      TrimTwice(h);
    }
  }

  /** Two stripped texts joined by a space. */
  lemma JoinTrimmed(a: string, b: string)
    requires a != [] && !IsSpace(a[0]) && !IsSpace(a[|a| - 1])
    requires b != [] && !IsSpace(b[0]) && !IsSpace(b[|b| - 1])
    ensures Trim(a + " " + b) == a + " " + b
    ensures NonSpace(a + " " + b) == NonSpace(a) + NonSpace(b)
  {
    var r := a + " " + b;
    assert r[0] == a[0] && r[|r| - 1] == b[|b| - 1];
    TrimOfTrimmed(r);
    NonSpaceAround(a, b);
  }

  lemma NonSpaceAround(a: string, b: string)
    ensures NonSpace(a + " " + b) == NonSpace(a) + NonSpace(b)
  {
    NonSpaceAppend(a + " ", b);
    NonSpaceAppend(a, " ");
    assert NonSpace(" ") == [];
  }

  /** `merge_sub_header` position by position; `zip` stops at the shorter row. */
  function FusedHeaders(headers: seq<string>, subHeader: seq<string>): (r: seq<string>)
    ensures |r| == if |headers| < |subHeader| then |headers| else |subHeader|
  {
    var n := if |headers| < |subHeader| then |headers| else |subHeader|;
    seq(n, k requires 0 <= k < n => FuseCell(headers[k], subHeader[k]))
  }

  /** The fused headers, built one position at a time. */
  lemma FusedIsZip(headers: seq<string>, subHeader: seq<string>, n: nat)
    requires n == |FusedHeaders(headers, subHeader)|
    ensures FusedHeaders(headers, subHeader) == Zip(FuseCell, headers[..n], subHeader[..n])
  {
    var z := Zip(FuseCell, headers[..n], subHeader[..n]);
    forall k | 0 <= k < n
      ensures z[k] == FuseCell(headers[k], subHeader[k])
    {
      ZipAt(FuseCell, headers[..n], subHeader[..n], k);
      assert headers[..n][k] == headers[k] && subHeader[..n][k] == subHeader[k];
    }
  }

  /** `merge_sub_header`: appends one fused cell per position of the shorter row. */
  method MergeSubHeader(headers: seq<string>, subHeader: seq<string>) returns (result: seq<string>)
    ensures result == FusedHeaders(headers, subHeader)
  {
    var n := if |headers| < |subHeader| then |headers| else |subHeader|;
    result := [];
    var i := 0;
    while i < n
      invariant 0 <= i <= n
      invariant result == Zip(FuseCell, headers[..i], subHeader[..i])
    {
      var h, sh := headers[i], subHeader[i];
      if Trim(sh) != [] && Trim(h) == [] {
        result := result + [Trim(sh)];
      } else if Trim(sh) != [] && Trim(h) != [] {
        result := result + [Trim(h) + " " + Trim(sh)];
      } else {
        result := result + [Trim(h)];
      }
      ZipStep(FuseCell, headers, subHeader, i);
      i := i + 1;
    }
    FusedIsZip(headers, subHeader, n);
  }

  /** A fused header list keeps, per column, the visible text of both rows. */
  lemma FusedHeadersSpec(headers: seq<string>, subHeader: seq<string>, k: nat)
    requires k < |FusedHeaders(headers, subHeader)|
    ensures NonSpace(FusedHeaders(headers, subHeader)[k]) == NonSpace(headers[k]) + NonSpace(subHeader[k])
    ensures Trim(FusedHeaders(headers, subHeader)[k]) == FusedHeaders(headers, subHeader)[k]
  {
    FuseCellSpec(headers[k], subHeader[k]);
  }

  /** The docstring example: `["Name","Age",""]` over `["","","Years"]` gives `["Name","Age","Years"]`. */
  lemma MergeSubHeaderExample(headers: seq<string>, subHeader: seq<string>)
    requires headers == ["Name", "Age", ""] && subHeader == ["", "", "Years"]
    ensures FusedHeaders(headers, subHeader) == ["Name", "Age", "Years"]
  {
    TrimOfTrimmed("Name");
    TrimOfTrimmed("Age");
    TrimOfTrimmed("Years");
    assert Trim("") == [];
    var r := FusedHeaders(headers, subHeader);
    assert r[0] == "Name" && r[1] == "Age" && r[2] == "Years";
  }
}
