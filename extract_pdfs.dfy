/** `PDFExtractor` (ingestion/extract_pdfs.py): the file-name-to-id rule, the
    three regular-expression passes of `_clean_text`, and the page loop of
    `extract_text_from_pdf`, with the PDF library's output given as the raw text
    of each page. Each `re.sub` pass is a left-to-right scan: at a position where
    the pattern matches, the longest match (the engine's greedy choice) is
    replaced and the scan resumes after it; elsewhere one character is copied. */
module Extract {
  import opened Builtins

  // ---------------------------------------------------------------------------
  // _extract_arxiv_id

  /** `filename.replace('.pdf', '')`. */
  function ExtractArxivId(filename: string): string
  {
    Replace(filename, ".pdf", "")
  }

  ghost predicate HasPdf(s: string)
  {
    exists i :: OccursAt(s, ".pdf", i)
  }

  /** A name without ".pdf" is returned unchanged. */
  lemma ExtractArxivIdNoPdf(s: string)
    requires !HasPdf(s)
    ensures ExtractArxivId(s) == s
  {
    ReplaceAbsent(s, ".pdf", "");
  }

  /** Stripping the extension: for `s + ".pdf"` with no ".pdf" inside `s`, the
      id is `s` (".pdf" cannot overlap itself, so no earlier match straddles
      the boundary). */
  lemma {:induction false} ExtractArxivIdOfPdfName(s: string)
    requires !HasPdf(s)
    ensures ExtractArxivId(s + ".pdf") == s
    decreases |s|
  {
    var u := s + ".pdf";
    if |s| == 0 {
      assert u == ".pdf";
      assert u[4..] == [];
    } else {
      assert u[..4] != ".pdf" by {
        if |s| >= 4 {
          assert u[..4] == s[0..4];
          assert !OccursAt(s, ".pdf", 0);
        } else {
          assert u[|s|] == '.';
          assert ".pdf"[|s|] != '.';
        }
      }
      assert !HasPdf(s[1..]) by {
        forall i | OccursAt(s[1..], ".pdf", i) ensures OccursAt(s, ".pdf", i + 1) {
          assert s[1..][i..i + 4] == s[i + 1..i + 5];
        }
      }
      assert u[1..] == s[1..] + ".pdf";
      ExtractArxivIdOfPdfName(s[1..]);
      assert s == [s[0]] + s[1..];
    }
  }

  /** The example from the docstring: 1110.2569v3.pdf -> 1110.2569v3. */
  lemma ExtractArxivIdExample()
    ensures ExtractArxivId("1110.2569v3.pdf") == "1110.2569v3"
  {
    var s := "1110.2569v3";
    assert !HasPdf(s) by {
      assert 'p' !in s;
      forall i | 0 <= i <= |s| - 4 ensures !OccursAt(s, ".pdf", i) {
        assert s[i..i + 4][1] == s[i + 1];
      }
    }
    ExtractArxivIdOfPdfName(s);
    assert s + ".pdf" == "1110.2569v3.pdf";
  }

  // ---------------------------------------------------------------------------
  // Runs and spans used by the patterns

  // A `\s*` run is matched greedily by Builtins.SkipSpace.

  /** The end of the run of digits starting at `i`. */
  function DigitRunEnd(s: string, i: nat): (j: nat)
    requires i <= |s|
    ensures i <= j <= |s|
    ensures forall k :: i <= k < j ==> IsDigit(s[k])
    ensures j == |s| || !IsDigit(s[j])
    decreases |s| - i
  {
    if i < |s| && IsDigit(s[i]) then DigitRunEnd(s, i + 1) else i
  }

  /** The last newline in `s[lo..hi]`, if any. */
  function LastNewline(s: string, lo: nat, hi: nat): (r: Option<nat>)
    requires lo <= hi <= |s|
    ensures r.Some? ==> lo <= r.value < hi && s[r.value] == '\n'
                        && forall k :: r.value < k < hi ==> s[k] != '\n'
    ensures r.None? ==> forall k :: lo <= k < hi ==> s[k] != '\n'
    decreases hi
  {
    if hi == lo then None
    else if s[hi - 1] == '\n' then Some(hi - 1)
    else LastNewline(s, lo, hi - 1)
  }

  /** `s[..k+1]` matches `\n\s*\n`. */
  predicate IsBlankSpan(s: string, k: int)
  {
    0 < k < |s| && s[0] == '\n' && s[k] == '\n'
    && forall j :: 0 < j < k ==> IsSpace(s[j])
  }

  /** The greedy match of `\n\s*\n` at the start of `s`: the end of the longest
      blank span, or None where the pattern does not match. */
  function BlankSpan(s: string): (r: Option<nat>)
    ensures r.Some? ==> IsBlankSpan(s, r.value)
                        && forall k :: IsBlankSpan(s, k) ==> k <= r.value
    ensures r.None? ==> forall k :: !IsBlankSpan(s, k)
  {
    if |s| == 0 || s[0] != '\n' then None
    else
      var e := SkipSpace(s, 1);
      var r := LastNewline(s, 1, e);
      assert forall k :: IsBlankSpan(s, k) ==> k < e by {
        forall k | IsBlankSpan(s, k) && k >= e ensures false {
          assert IsSpace(s[e]);
        }
      }
      r
  }

  /** `s[a..b]` are digits, with whitespace from 1 to `a` and from `b` to `k`:
      the shape of `\n\s*\d+\s*\n` once the two newlines are fixed. */
  predicate PageNumberParts(s: string, a: int, b: int, k: int)
  {
    1 <= a < b <= k < |s|
    && (forall j :: 1 <= j < a ==> IsSpace(s[j]))
    && (forall j :: a <= j < b ==> IsDigit(s[j]))
    && (forall j :: b <= j < k ==> IsSpace(s[j]))
  }

  /** `s[..k+1]` matches `\n\s*\d+\s*\n`. */
  ghost predicate IsPageNumberSpan(s: string, k: int)
  {
    0 < k < |s| && s[0] == '\n' && s[k] == '\n'
    && exists a, b :: PageNumberParts(s, a, b, k)
  }

  lemma DigitIsNotSpace(c: char)
    requires IsDigit(c)
    ensures !IsSpace(c)
  {
  }

  /** In any match of `\n\s*\d+\s*\n` the digits are the run that follows the
      first whitespace run, so only the final whitespace run can vary. */
  lemma PageNumberPartsFixed(s: string, a: int, b: int, k: int)
    requires PageNumberParts(s, a, b, k) && s[k] == '\n'
    ensures a == SkipSpace(s, 1) && b == DigitRunEnd(s, a)
    ensures k < SkipSpace(s, b)
  {
    var a0 := SkipSpace(s, 1);
    DigitIsNotSpace(s[a]);
    assert a0 == a;
    var b0 := DigitRunEnd(s, a);
    if b0 < b {
    } else if b0 > b {
      assert IsDigit(s[b]);
      if b < k { assert IsSpace(s[b]); DigitIsNotSpace(s[b]); }
    }
    assert b0 == b;
    var e := SkipSpace(s, b);
    if e <= k {
      assert IsSpace(s[e]);
    }
  }

  /** The greedy match of `\n\s*\d+\s*\n` at the start of `s`: the end of the
      longest page-number span, or None where the pattern does not match. */
  function PageNumberSpan(s: string): (r: Option<nat>)
    ensures r.Some? ==> IsPageNumberSpan(s, r.value)
                        && forall k :: IsPageNumberSpan(s, k) ==> k <= r.value
    ensures r.None? ==> forall k :: !IsPageNumberSpan(s, k)
  {
    if |s| == 0 || s[0] != '\n' then None
    else
      var a := SkipSpace(s, 1);
      if a == |s| || !IsDigit(s[a]) then
        assert forall k :: !IsPageNumberSpan(s, k) by {
          forall k | IsPageNumberSpan(s, k) ensures false {
            var a', b' :| PageNumberParts(s, a', b', k);
            PageNumberPartsFixed(s, a', b', k);
          }
        }
        None
      else
        var b := DigitRunEnd(s, a);
        var e := SkipSpace(s, b);
        var r := LastNewline(s, b, e);
        assert forall k :: IsPageNumberSpan(s, k) ==> b <= k < e && s[k] == '\n' by {
          forall k | IsPageNumberSpan(s, k) ensures b <= k < e {
            var a', b' :| PageNumberParts(s, a', b', k);
            PageNumberPartsFixed(s, a', b', k);
          }
        }
        assert r.Some? ==> PageNumberParts(s, a, b, r.value);
        r
  }

  // ---------------------------------------------------------------------------
  // The three passes

  /** `re.sub(r'\n\s*\n', '\n\n', s)`. */
  function CollapseBlankLines(s: string): (r: string)
    decreases |s|
  {
    if |s| == 0 then ""
    else match BlankSpan(s)
      case Some(k) => "\n\n" + CollapseBlankLines(s[k + 1..])
      case None => [s[0]] + CollapseBlankLines(s[1..])
  }

  /** The end of the run of ' ' characters starting at `i`. */
  function BlankRunEnd(s: string, i: nat): (j: nat)
    requires i <= |s|
    ensures i <= j <= |s|
    ensures forall k :: i <= k < j ==> s[k] == ' '
    ensures j == |s| || s[j] != ' '
    decreases |s| - i
  {
    if i < |s| && s[i] == ' ' then BlankRunEnd(s, i + 1) else i
  }

  /** `re.sub(r' +', ' ', s)`. */
  function CollapseSpaces(s: string): (r: string)
    decreases |s|
  {
    if |s| == 0 then ""
    else if s[0] == ' ' then " " + CollapseSpaces(s[BlankRunEnd(s, 0)..])
    else [s[0]] + CollapseSpaces(s[1..])
  }

  /** `re.sub(r'\n\s*\d+\s*\n', '\n', s)`. */
  function DropPageNumberLines(s: string): (r: string)
    decreases |s|
  {
    if |s| == 0 then ""
    else match PageNumberSpan(s)
      case Some(k) => "\n" + DropPageNumberLines(s[k + 1..])
      case None => [s[0]] + DropPageNumberLines(s[1..])
  }

  predicate NoDoubleSpace(s: string)
  {
    forall i :: 0 <= i < |s| - 1 ==> !(s[i] == ' ' && s[i + 1] == ' ')
  }

  /** `_clean_text`: the three passes, then `strip()`; the result has no
      whitespace at either end and no two spaces in a row. */
  function CleanText(text: string): (r: string)
    ensures r == [] || (!IsSpace(r[0]) && !IsSpace(r[|r| - 1]))
    ensures NoDoubleSpace(r)
  {
    var t1 := CollapseBlankLines(text);
    var t2 := CollapseSpaces(t1);
    var t3 := DropPageNumberLines(t2);
    CollapseSpacesNoDoubleSpace(t1);
    DropPageNumberLinesKeepsNoDoubleSpace(t2);
    StripKeepsNoDoubleSpace(t3);
    Strip(t3)
  }

  // ---------------------------------------------------------------------------
  // Properties of the passes

  /** No pass changes the first character: a match starts with the character
      it is replaced by. */
  lemma {:induction false} CollapseBlankLinesHead(s: string)
    ensures |CollapseBlankLines(s)| > 0 <==> |s| > 0
    ensures |s| > 0 ==> CollapseBlankLines(s)[0] == s[0]
  {
  }

  lemma {:induction false} CollapseSpacesHead(s: string)
    ensures |CollapseSpaces(s)| > 0 <==> |s| > 0
    ensures |s| > 0 ==> CollapseSpaces(s)[0] == s[0]
  {
  }

  lemma {:induction false} DropPageNumberLinesHead(s: string)
    ensures |DropPageNumberLines(s)| > 0 <==> |s| > 0
    ensures |s| > 0 ==> DropPageNumberLines(s)[0] == s[0]
  {
  }

  /** After `re.sub(r' +', ' ', ...)` no two spaces are adjacent. */
  lemma {:induction false} CollapseSpacesNoDoubleSpace(s: string)
    ensures NoDoubleSpace(CollapseSpaces(s))
    decreases |s|
  {
    if |s| == 0 {
    } else if s[0] == ' ' {
      var j := BlankRunEnd(s, 0);
      var t := s[j..];
      CollapseSpacesNoDoubleSpace(t);
      CollapseSpacesHead(t);
      var r := CollapseSpaces(s);
      assert r == " " + CollapseSpaces(t);
      forall i | 0 <= i < |r| - 1 ensures !(r[i] == ' ' && r[i + 1] == ' ') {
        if i > 0 { assert r[i] == CollapseSpaces(t)[i - 1]; }
      }
    } else {
      var t := s[1..];
      CollapseSpacesNoDoubleSpace(t);
      var r := CollapseSpaces(s);
      forall i | 0 <= i < |r| - 1 ensures !(r[i] == ' ' && r[i + 1] == ' ') {
        if i > 0 { assert r[i] == CollapseSpaces(t)[i - 1]; }
      }
    }
  }

  /** The space pass changes nothing in a text without two adjacent spaces, so
      applying it twice is the same as once. */
  lemma {:induction false} CollapseSpacesIdentity(s: string)
    requires NoDoubleSpace(s)
    ensures CollapseSpaces(s) == s
    decreases |s|
  {
    if |s| > 0 {
      var t := s[1..];
      assert NoDoubleSpace(t) by {
        forall i | 0 <= i < |t| - 1 ensures !(t[i] == ' ' && t[i + 1] == ' ') {
          assert t[i] == s[i + 1] && t[i + 1] == s[i + 2];
        }
      }
      if s[0] == ' ' {
        assert BlankRunEnd(s, 0) == 1 by {
          assert |s| > 1 ==> s[1] != ' ';
        }
      }
      CollapseSpacesIdentity(t);
      assert s == [s[0]] + t;
    }
  }

  lemma CollapseSpacesIdempotent(s: string)
    ensures CollapseSpaces(CollapseSpaces(s)) == CollapseSpaces(s)
  {
    CollapseSpacesNoDoubleSpace(s);
    CollapseSpacesIdentity(CollapseSpaces(s));
  }

  /** The page-number pass replaces spans that start and end with a newline by
      one newline, so it never puts two spaces next to each other. */
  lemma {:induction false} DropPageNumberLinesKeepsNoDoubleSpace(s: string)
    requires NoDoubleSpace(s)
    ensures NoDoubleSpace(DropPageNumberLines(s))
    decreases |s|
  {
    if |s| > 0 {
      var r := DropPageNumberLines(s);
      match PageNumberSpan(s)
      case Some(k) =>
        var t := s[k + 1..];
        assert NoDoubleSpace(t) by {
          forall i | 0 <= i < |t| - 1 ensures !(t[i] == ' ' && t[i + 1] == ' ') {
            assert t[i] == s[k + 1 + i] && t[i + 1] == s[k + 2 + i];
          }
        }
        DropPageNumberLinesKeepsNoDoubleSpace(t);
        var d := DropPageNumberLines(t);
        assert r == "\n" + d;
        forall i | 0 <= i < |r| - 1 ensures !(r[i] == ' ' && r[i + 1] == ' ') {
          if i > 0 { assert r[i] == d[i - 1] && r[i + 1] == d[i]; }
        }
      case None =>
        var t := s[1..];
        assert NoDoubleSpace(t) by {
          forall i | 0 <= i < |t| - 1 ensures !(t[i] == ' ' && t[i + 1] == ' ') {
            assert t[i] == s[i + 1] && t[i + 1] == s[i + 2];
          }
        }
        DropPageNumberLinesKeepsNoDoubleSpace(t);
        DropPageNumberLinesHead(t);
        var d := DropPageNumberLines(t);
        assert r == [s[0]] + d;
        forall i | 0 <= i < |r| - 1 ensures !(r[i] == ' ' && r[i + 1] == ' ') {
          if i > 0 {
            assert r[i] == d[i - 1] && r[i + 1] == d[i];
          } else {
            assert r[1] == t[0] == s[1];
          }
        }
    }
  }

  lemma StripKeepsNoDoubleSpace(s: string)
    requires NoDoubleSpace(s)
    ensures NoDoubleSpace(Strip(s))
  {
    StripSlice(s);
    var i, j :| 0 <= i <= j <= |s| && Strip(s) == s[i..j];
    var r := Strip(s);
    forall k | 0 <= k < |r| - 1 ensures !(r[k] == ' ' && r[k + 1] == ' ') {
      assert r[k] == s[i + k] && r[k + 1] == s[i + k + 1];
    }
  }

  /** Matches of the page-number pattern cannot overlap: the newline that
      ends one page-number line is consumed by its match, so the page-number
      line right after it is kept. */
  lemma DropPageNumberLinesAdjacent()
    ensures DropPageNumberLines("\n1\n2\n") == "\n2\n"
  {
    var s := "\n1\n2\n";
    assert SkipSpace(s, 1) == 1 && DigitRunEnd(s, 1) == 2 && SkipSpace(s, 2) == 3;
    assert LastNewline(s, 2, 3) == Some(2);
    assert PageNumberSpan(s) == Some(2);
    assert s[3..] == "2\n";
    var t := "2\n";
    assert PageNumberSpan(t) == None;
    assert t[1..] == "\n";
    var u := "\n";
    assert SkipSpace(u, 1) == 1;
    assert PageNumberSpan(u) == None;
    assert u[1..] == "";
  }

  /** A text without ASCII digits has no lone page-number line: the third pass
      leaves it unchanged. */
  lemma {:induction false} DropPageNumberLinesWithoutDigits(s: string)
    requires forall i :: 0 <= i < |s| ==> !IsDigit(s[i])
    ensures DropPageNumberLines(s) == s
    decreases |s|
  {
    if |s| > 0 {
      forall a, b, k ensures !PageNumberParts(s, a, b, k) {
        if 1 <= a < b <= k < |s| {
          assert !IsDigit(s[a]);
        }
      }
      DropPageNumberLinesWithoutDigits(s[1..]);
      assert s == [s[0]] + s[1..];
    }
  }

  /** `s[k]` is a newline and everything before it is whitespace. */
  predicate LeadingNewlineAt(s: string, k: int)
  {
    0 <= k < |s| && s[k] == '\n' && forall j :: 0 <= j < k ==> IsSpace(s[j])
  }

  /** The leading whitespace run of `s` contains a newline. */
  ghost predicate LeadingNewline(s: string)
  {
    exists k :: LeadingNewlineAt(s, k)
  }

  /** Newlines at `i` and `k` with only whitespace between them. */
  predicate NewlineSpan(s: string, i: int, k: int)
  {
    0 <= i < k < |s| && s[i] == '\n' && s[k] == '\n'
    && forall j :: i < j < k ==> IsSpace(s[j])
  }

  /** No two newlines of `s` have only whitespace between them unless they are
      adjacent: every blank-line run has become exactly "\n\n". */
  ghost predicate NoBlankLines(s: string)
  {
    forall i, k :: NewlineSpan(s, i, k) ==> k == i + 1
  }

  lemma NewlineSpanShift(p: string, t: string, i: int, k: int)
    requires 0 <= i
    ensures NewlineSpan(p + t, i + |p|, k + |p|) <==> NewlineSpan(t, i, k)
  {
    var s := p + t;
    if NewlineSpan(t, i, k) {
      forall j | i + |p| < j < k + |p| ensures IsSpace(s[j]) {
        assert s[j] == t[j - |p|];
      }
    }
    if NewlineSpan(s, i + |p|, k + |p|) {
      forall j | i < j < k ensures IsSpace(t[j]) {
        assert s[j + |p|] == t[j];
      }
    }
  }

  lemma LeadingNewlineShift(p: string, t: string, k: int)
    requires forall j :: 0 <= j < |p| ==> IsSpace(p[j]) && p[j] != '\n'
    requires 0 <= k
    ensures LeadingNewlineAt(p + t, k + |p|) <==> LeadingNewlineAt(t, k)
  {
    var s := p + t;
    if LeadingNewlineAt(t, k) {
      forall j | 0 <= j < k + |p| ensures IsSpace(s[j]) {
        if j >= |p| { assert s[j] == t[j - |p|]; }
      }
    }
    if LeadingNewlineAt(s, k + |p|) {
      forall j | 0 <= j < k ensures IsSpace(t[j]) {
        assert s[j + |p|] == t[j];
      }
    }
  }

  lemma NoBlankLinesSuffix(s: string, n: nat)
    requires NoBlankLines(s) && n <= |s|
    ensures NoBlankLines(s[n..])
  {
    assert s == s[..n] + s[n..];
    forall i, k | NewlineSpan(s[n..], i, k) ensures k == i + 1 {
      NewlineSpanShift(s[..n], s[n..], i, k);
    }
  }

  /** A character other than a newline in front adds no blank line. */
  lemma NoBlankLinesCons(c: char, t: string)
    requires c != '\n' && NoBlankLines(t)
    ensures NoBlankLines([c] + t)
  {
    forall i, k | NewlineSpan([c] + t, i, k) ensures k == i + 1 {
      NewlineSpanShift([c], t, i - 1, k - 1);
    }
  }

  /** One or two newlines in front of a text whose leading whitespace run has
      no newline add no blank line. */
  lemma NoBlankLinesAfterNewlines(p: string, t: string)
    requires NoBlankLines(t) && !LeadingNewline(t)
    requires p == "\n" || p == "\n\n"
    ensures NoBlankLines(p + t)
  {
    var s := p + t;
    forall i, k | NewlineSpan(s, i, k) ensures k == i + 1 {
      if i >= |p| {
        NewlineSpanShift(p, t, i - |p|, k - |p|);
      } else if k >= |p| && k > i + 1 {
        assert s[|p| - 1] == '\n';
        forall j | 0 <= j < k - |p| ensures IsSpace(t[j]) {
          assert t[j] == s[j + |p|];
        }
        assert LeadingNewlineAt(t, k - |p|);
      }
    }
  }

  lemma {:induction false} CollapseBlankLinesLeadingNewline(s: string)
    ensures LeadingNewline(CollapseBlankLines(s)) <==> LeadingNewline(s)
    decreases |s|
  {
    if |s| > 0 {
      var r := CollapseBlankLines(s);
      CollapseBlankLinesHead(s);
      if s[0] == '\n' {
        assert LeadingNewlineAt(s, 0) && LeadingNewlineAt(r, 0);
      } else if IsSpace(s[0]) {
        var t := s[1..];
        CollapseBlankLinesLeadingNewline(t);
        var d := CollapseBlankLines(t);
        assert r == [s[0]] + d;
        assert s == [s[0]] + t;
        forall k | LeadingNewlineAt(d, k) ensures LeadingNewline(r) {
          LeadingNewlineShift([s[0]], d, k);
        }
        forall k | LeadingNewlineAt(r, k) ensures LeadingNewline(d) {
          LeadingNewlineShift([s[0]], d, k - 1);
        }
        forall k | LeadingNewlineAt(t, k) ensures LeadingNewline(s) {
          LeadingNewlineShift([s[0]], t, k);
        }
        forall k | LeadingNewlineAt(s, k) ensures LeadingNewline(t) {
          LeadingNewlineShift([s[0]], t, k - 1);
        }
      } else {
        assert forall k :: !LeadingNewlineAt(s, k);
        assert forall k :: !LeadingNewlineAt(r, k);
      }
    }
  }

  /** After the blank span that the first pass replaces, the rest of the text
      has no newline in its leading whitespace run: the match was the longest. */
  lemma AfterBlankSpan(s: string, k: nat)
    requires BlankSpan(s) == Some(k)
    ensures !LeadingNewline(s[k + 1..])
  {
    var t := s[k + 1..];
    forall m | LeadingNewlineAt(t, m) ensures false {
      forall j | 0 < j < k + 1 + m ensures IsSpace(s[j]) {
        if j > k { assert s[j] == t[j - k - 1]; }
      }
      assert IsBlankSpan(s, k + 1 + m);
    }
  }

  /** Where the first pass copies a newline, no newline follows it across
      whitespace only. */
  lemma AfterUnmatchedNewline(s: string)
    requires |s| > 0 && s[0] == '\n' && BlankSpan(s).None?
    ensures !LeadingNewline(s[1..])
  {
    var t := s[1..];
    forall m | LeadingNewlineAt(t, m) ensures false {
      forall j | 0 < j < m + 1 ensures IsSpace(s[j]) {
        assert s[j] == t[j - 1];
      }
      assert IsBlankSpan(s, m + 1);
    }
  }

  /** After `re.sub(r'\n\s*\n', '\n\n', ...)` no blank line is left: newlines
      separated only by whitespace are adjacent. */
  lemma {:induction false} CollapseBlankLinesNoBlankLines(s: string)
    ensures NoBlankLines(CollapseBlankLines(s))
    decreases |s|
  {
    if |s| > 0 {
      match BlankSpan(s)
      case Some(k) =>
        var t := s[k + 1..];
        CollapseBlankLinesNoBlankLines(t);
        CollapseBlankLinesLeadingNewline(t);
        AfterBlankSpan(s, k);
        NoBlankLinesAfterNewlines("\n\n", CollapseBlankLines(t));
      case None =>
        var t := s[1..];
        CollapseBlankLinesNoBlankLines(t);
        if s[0] == '\n' {
          CollapseBlankLinesLeadingNewline(t);
          AfterUnmatchedNewline(s);
          NoBlankLinesAfterNewlines("\n", CollapseBlankLines(t));
        } else {
          NoBlankLinesCons(s[0], CollapseBlankLines(t));
        }
    }
  }

  /** A text without blank lines is left unchanged by the first pass. */
  lemma {:induction false} CollapseBlankLinesIdentity(s: string)
    requires NoBlankLines(s)
    ensures CollapseBlankLines(s) == s
    decreases |s|
  {
    if |s| > 0 {
      match BlankSpan(s)
      case Some(k) =>
        BlankSpanIsPair(s);
        NoBlankLinesSuffix(s, 2);
        CollapseBlankLinesIdentity(s[2..]);
        assert s == "\n\n" + s[2..];
      case None =>
        NoBlankLinesSuffix(s, 1);
        CollapseBlankLinesIdentity(s[1..]);
        assert s == [s[0]] + s[1..];
    }
  }

  /** Where no blank-line run is left, a match of the first pass is just the
      two newlines "\n\n". */
  lemma BlankSpanIsPair(s: string)
    requires NoBlankLines(s) && BlankSpan(s).Some?
    ensures BlankSpan(s) == Some(1) && s[..2] == "\n\n"
  {
    var k := BlankSpan(s).value;
    assert NewlineSpan(s, 0, k);
  }

  /** Applying the first pass twice is the same as once. */
  lemma CollapseBlankLinesIdempotent(s: string)
    ensures CollapseBlankLines(CollapseBlankLines(s)) == CollapseBlankLines(s)
  {
    CollapseBlankLinesNoBlankLines(s);
    CollapseBlankLinesIdentity(CollapseBlankLines(s));
  }

  // ---------------------------------------------------------------------------
  // extract_text_from_pdf: the page loop

  datatype Page = Page(pageNumber: nat, text: string)

  datatype ExtractedPaper = ExtractedPaper(
    filename: string,
    arxivId: string,
    numPages: nat,
    metadata: map<string, string>,
    fullText: string,
    pages: seq<Page>)

  /** The cleaned text of every page, in page order. */
  function CleanedPages(rawPages: seq<string>): (r: seq<string>)
    ensures |r| == |rawPages|
  {
    seq(|rawPages|, k requires 0 <= k < |rawPages| => CleanText(rawPages[k]))
  }

  /** The page loop of extract_text_from_pdf: page `k` (from 0) is numbered
      `k + 1` and holds the cleaned text of raw page `k`; the texts are
      collected in page order. */
  method CleanPages(rawPages: seq<string>) returns (pages: seq<Page>, fullText: seq<string>)
    ensures fullText == CleanedPages(rawPages)
    ensures |pages| == |rawPages|
    ensures forall k :: 0 <= k < |rawPages| ==> pages[k] == Page(k + 1, fullText[k])
  {
    ghost var cleaned := CleanedPages(rawPages);
    fullText := [];
    pages := [];
    var k := 0;
    while k < |rawPages|
      invariant 0 <= k <= |rawPages|
      invariant |pages| == k
      invariant fullText == cleaned[..k]
      invariant forall j :: 0 <= j < k ==> pages[j] == Page(j + 1, fullText[j])
    {
      var pageText := CleanText(rawPages[k]);
      assert pageText == cleaned[k];
      pages := pages + [Page(k + 1, pageText)];
      fullText := fullText + [pageText];
      assert cleaned[..k + 1] == cleaned[..k] + [cleaned[k]];
      k := k + 1;
    }
    assert cleaned[..k] == cleaned;
  }

  /** `page`'s text can be read back out of `full` at the offset of the
      first `k` texts, each followed by a two-character separator. */
  predicate PageAt(page: Page, texts: seq<string>, full: string, k: nat)
    requires k <= |texts|
  {
    var o := Offset(texts, 2, k);
    o + |page.text| <= |full| && full[o..o + |page.text|] == page.text
  }

  /** Every page sits in `full` at the offset of the texts before it. */
  predicate PagesInText(pages: seq<Page>, texts: seq<string>, full: string)
    requires |pages| <= |texts|
  {
    forall k :: 0 <= k < |pages| ==> PageAt(pages[k], texts, full, k)
  }

  /** Pages holding the texts that were joined by blank lines sit in the
      joined text. */
  lemma PagesInJoin(pages: seq<Page>, texts: seq<string>, full: string)
    requires |pages| == |texts| && full == Join(texts, "\n\n")
    requires forall k :: 0 <= k < |pages| ==> pages[k].text == texts[k]
    ensures PagesInText(pages, texts, full)
  {
    forall k | 0 <= k < |pages| ensures PageAt(pages[k], texts, full, k) {
      PageInJoin(texts, full, pages[k], k);
    }
  }

  /** One page of PagesInJoin, proved apart so that the quantified context
      of the caller stays out of JoinPieceAt's proof obligation. */
  lemma PageInJoin(texts: seq<string>, full: string, page: Page, k: nat)
    requires k < |texts| && full == Join(texts, "\n\n") && page.text == texts[k]
    ensures PageAt(page, texts, full, k)
  {
    JoinPieceAt(texts, "\n\n", k);
  }

  /** The record built for one PDF: `rawPages` holds the text the PDF library
      returns for each page and `docMetadata` its document metadata. Page `k`
      (from 0) is numbered `k + 1`, holds the cleaned text of raw page `k`,
      and the full text is the cleaned pages joined by blank lines, so each
      page's text can be read back out of it at the offset of the pages and
      separators before it. */
  method ExtractTextFromPdf(filename: string, docMetadata: map<string, string>, rawPages: seq<string>)
    returns (data: ExtractedPaper)
    ensures data.filename == filename && data.arxivId == ExtractArxivId(filename)
    ensures data.numPages == |rawPages| && data.metadata == docMetadata
    ensures |data.pages| == |rawPages|
    ensures forall k :: 0 <= k < |rawPages| ==>
              data.pages[k].pageNumber == k + 1 && data.pages[k].text == CleanText(rawPages[k])
    ensures data.fullText == Join(CleanedPages(rawPages), "\n\n")
    ensures PagesInText(data.pages, CleanedPages(rawPages), data.fullText)
  {
    var pages, fullText := CleanPages(rawPages);
    data := ExtractedPaper(filename, ExtractArxivId(filename), |rawPages|, docMetadata,
                           Join(fullText, "\n\n"), pages);
    PagesInJoin(pages, fullText, data.fullText);
  }
}
