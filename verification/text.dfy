/**
 * Description and title cleaning (`truncate_description`,
 * `clean_html_entities`): tag stripping as `re.sub(r'<[^>]+>', '', s)`,
 * entity decoding, whitespace collapse as `re.sub(r'\s+', ' ', s).strip()`,
 * and truncation to a length budget with a "..." marker.
 */
module TextCleaning {
  import opened Common

  /**
   * Python's `html.unescape`. Its entity table lives in the standard
   * library, so callers pass the decoder in.
   */
  type Unescaper = string -> string

  // ---------------------------------------------------------------------
  // Tag stripping: re.sub(r'<[^>]+>', '', s)
  // ---------------------------------------------------------------------

  /** A whole match of `<[^>]+>`: '<', one or more characters other than '>', then '>'. */
  predicate IsTag(t: string) {
    |t| >= 3 && t[0] == '<' && t[|t| - 1] == '>' && forall j :: 1 <= j < |t| - 1 ==> t[j] != '>'
  }

  ghost predicate ContainsTag(s: string) {
    exists i, j :: 0 <= i < j <= |s| && IsTag(s[i..j])
  }

  /** Index of the first '>' in `s`, or `|s|` when there is none. */
  function FirstClose(s: string): (k: nat)
    ensures k <= |s|
    ensures k < |s| ==> s[k] == '>'
    ensures forall j :: 0 <= j < k ==> s[j] != '>'
  {
    if |s| == 0 || s[0] == '>' then 0 else 1 + FirstClose(s[1..])
  }

  /**
   * Length of the match of `<[^>]+>` anchored at the start of `s`, if there
   * is one. The greedy `[^>]+` runs up to the first '>', so there is a
   * match exactly when that '>' exists and is not right after the '<'.
   */
  function TagAt(s: string): (r: Option<nat>)
    ensures r.Some? ==> 3 <= r.value <= |s| && IsTag(s[..r.value])
    ensures r.None? ==> forall n :: 0 < n <= |s| ==> !IsTag(s[..n])
  {
    if |s| > 0 && s[0] == '<' then
      var k := 1 + FirstClose(s[1..]);
      if 2 <= k < |s| then
        assert forall j :: 1 <= j < k ==> s[1..][j - 1] == s[j];
        Some(k + 1)
      else
        assert forall n :: 0 < n <= |s| ==> !IsTag(s[..n]) by {
          forall n | 0 < n <= |s|
            ensures !IsTag(s[..n])
          {
            if k < 2 {
              if n >= 3 {
                assert s[..n][1] == s[1..][0] == '>';
              }
            } else if n >= 2 {
              assert s[..n][n - 1] == s[1..][n - 2];
            }
          }
        }
        None
    else
      None
  }

  /** `re.sub(r'<[^>]+>', '', s)`: scan left to right, dropping each match. */
  function StripTags(s: string): (r: string)
    ensures |r| <= |s|
    ensures forall c :: c in r ==> c in s
    decreases |s|
  {
    if |s| == 0 then ""
    else
      match TagAt(s)
      case Some(n) =>
        var r := StripTags(s[n..]);
        assert forall c :: c in s[n..] ==> c in s;
        r
      case None =>
        var rest := StripTags(s[1..]);
        assert forall c :: c in s[1..] ==> c in s;
        [s[0]] + rest
  }

  /** No match of `<[^>]+>` starts anywhere in `s`. */
  predicate NoTagStart(s: string) {
    forall i :: 0 <= i < |s| ==> TagAt(s[i..]).None?
  }

  /** "No match starts anywhere" is the same as "no substring is a tag". */
  lemma NoTagStartIffNoTag(s: string)
    ensures NoTagStart(s) <==> !ContainsTag(s)
  {
    if NoTagStart(s) {
      NoTagStartNoTag(s);
    } else {
      var i :| 0 <= i < |s| && TagAt(s[i..]).Some?;
      TagStartContainsTag(s, i);
    }
  }

  lemma NoTagStartNoTag(s: string)
    requires NoTagStart(s)
    ensures !ContainsTag(s)
  {
    forall i, j | 0 <= i < j <= |s|
      ensures !IsTag(s[i..j])
    {
      var t := s[i..];
      assert TagAt(t).None?;
      assert t[..j - i] == s[i..j];
    }
  }

  lemma TagStartContainsTag(s: string, i: nat)
    requires i < |s| && TagAt(s[i..]).Some?
    ensures ContainsTag(s)
  {
    var n := TagAt(s[i..]).value;
    assert s[i..][..n] == s[i..i + n];
    assert IsTag(s[i..i + n]);
  }

  lemma NoCloseFirstClose(s: string)
    requires '>' !in s
    ensures FirstClose(s) == |s|
  {
  }

  /** Whatever the scan leaves behind contains no tag, even where removals bring text together. */
  lemma {:induction false} StripTagsNoTagStart(s: string)
    ensures NoTagStart(StripTags(s))
    decreases |s|
  {
    if |s| > 0 {
      match TagAt(s)
      case Some(n) =>
        StripTagsNoTagStart(s[n..]);
      case None =>
        var rest := StripTags(s[1..]);
        var r := [s[0]] + rest;
        StripTagsNoTagStart(s[1..]);
        forall i | 1 <= i < |r|
          ensures TagAt(r[i..]).None?
        {
          assert r[i..] == rest[i - 1..];
        }
        if s[0] == '<' {
          var k := 1 + FirstClose(s[1..]);
          if k < 2 {
            if |s| > 1 {
              assert s[1] == '>';
              assert TagAt(s[1..]).None?;
              assert rest == [s[1]] + StripTags(s[2..]);
              assert r[1..][0] == '>';
            }
          } else {
            assert k >= |s|;
            assert '>' !in s[1..] by {
              forall j | 0 <= j < |s[1..]|
                ensures s[1..][j] != '>'
              {
              }
            }
            NoCloseFirstClose(rest);
          }
        }
        assert TagAt(r[0..]).None? by {
          assert r[0..] == r;
        }
    }
  }

  /** Text with no tag in it passes through unchanged. */
  lemma {:induction false} StripTagsIdentity(s: string)
    requires NoTagStart(s)
    ensures StripTags(s) == s
    decreases |s|
  {
    if |s| > 0 {
      assert TagAt(s[0..]).None?;
      assert s[0..] == s;
      forall i | 0 <= i < |s| - 1
        ensures TagAt(s[1..][i..]).None?
      {
        assert s[1..][i..] == s[i + 1..];
      }
      StripTagsIdentity(s[1..]);
    }
  }

  /** Stripping leaves no tag behind, and a second pass changes nothing. */
  lemma StripTagsSpec(s: string)
    ensures !ContainsTag(StripTags(s))
    ensures StripTags(StripTags(s)) == StripTags(s)
  {
    StripTagsNoTagStart(s);
    NoTagStartIffNoTag(StripTags(s));
    StripTagsIdentity(StripTags(s));
  }

  lemma {:induction false} FirstCloseAfter(a: string, b: string)
    requires '>' !in a
    ensures FirstClose(a + b) == |a| + FirstClose(b)
    decreases |a|
  {
    if |a| > 0 {
      assert (a + b)[1..] == a[1..] + b;
      FirstCloseAfter(a[1..], b);
    } else {
      assert a + b == b;
    }
  }

  /** A tag at the front is removed as a whole, whatever follows it. */
  lemma StripTagsLeadingTag(t: string, rest: string)
    requires IsTag(t)
    ensures StripTags(t + rest) == StripTags(rest)
  {
    var s := t + rest;
    var inner := t[1..|t| - 1];
    assert '>' !in inner by {
      forall j | 0 <= j < |inner|
        ensures inner[j] != '>'
      {
        assert inner[j] == t[j + 1];
      }
    }
    assert s[1..] == inner + (">" + rest);
    FirstCloseAfter(inner, ">" + rest);
    assert TagAt(s) == Some(|t|);
    assert s[|t|..] == rest;
  }

  /** Text without a '<' is kept as it is, whatever follows it. */
  lemma {:induction false} StripTagsPlainPrefix(w: string, rest: string)
    requires '<' !in w
    ensures StripTags(w + rest) == w + StripTags(rest)
    decreases |w|
  {
    if |w| > 0 {
      var s := w + rest;
      assert TagAt(s) == None;
      assert s[1..] == w[1..] + rest;
      StripTagsPlainPrefix(w[1..], rest);
    } else {
      assert w + rest == rest;
    }
  }

  /** Plain text between an opening and a closing tag is all that remains. */
  lemma StripTagsEnclosed(open: string, text: string, close: string)
    requires IsTag(open) && IsTag(close) && '<' !in text
    ensures StripTags(open + text + close) == text
  {
    StripTagsLeadingTag(close, "");
    assert close + "" == close;
    StripTagsPlainPrefix(text, close);
    assert text + "" == text;
    assert open + text + close == open + (text + close);
    StripTagsLeadingTag(open, text + close);
  }

  /** "<b>bold</b>" becomes "bold". */
  lemma StripTagsMarkupExample()
    ensures StripTags("<b>bold</b>") == "bold"
  {
    assert "<b>bold</b>" == "<b>" + "bold" + "</b>";
    StripTagsEnclosed("<b>", "bold", "</b>");
  }

  /** "<>" is not a match: `[^>]+` needs at least one character. */
  lemma StripTagsEmptyBracketsExample()
    ensures StripTags("<>") == "<>"
  {
    assert TagAt("<>") == None;
    assert TagAt(">") == None;
    assert "<>"[1..] == ">";
    assert ">"[1..] == "";
  }

  /** "<abc" is not a match: no closing '>'. */
  lemma StripTagsUnterminatedExample()
    ensures StripTags("<abc") == "<abc"
  {
    assert NoTagStart("<abc") by {
      assert TagAt("<abc") == None;
    }
    StripTagsIdentity("<abc");
  }

  // ---------------------------------------------------------------------
  // Whitespace: re.sub(r'\s+', ' ', s).strip()
  // ---------------------------------------------------------------------

  /**
   * The characters Python's `str.isspace()` accepts, which is also the
   * class `\s` matches in a `str` pattern.
   */
  predicate IsSpace(c: char) {
    || ('\t' <= c <= '\r')
    || ('\U{1C}' <= c <= '\U{1F}')
    || c == ' '
    || c == '\U{85}'
    || c == '\U{A0}'
    || c == '\U{1680}'
    || ('\U{2000}' <= c <= '\U{200A}')
    || c == '\U{2028}'
    || c == '\U{2029}'
    || c == '\U{202F}'
    || c == '\U{205F}'
    || c == '\U{3000}'
  }

  /** `s.lstrip()`: drop the leading whitespace. */
  function DropLeadingSpaces(s: string): (r: string)
    ensures |r| <= |s| && r == s[|s| - |r|..]
    ensures r == "" || !IsSpace(r[0])
    ensures forall i :: 0 <= i < |s| - |r| ==> IsSpace(s[i])
  {
    if |s| > 0 && IsSpace(s[0]) then DropLeadingSpaces(s[1..]) else s
  }

  /** `s.rstrip()`: drop the trailing whitespace. */
  function DropTrailingSpaces(s: string): (r: string)
    ensures |r| <= |s| && r == s[..|r|]
    ensures r == "" || !IsSpace(r[|r| - 1])
    ensures forall i :: |r| <= i < |s| ==> IsSpace(s[i])
  {
    if |s| > 0 && IsSpace(s[|s| - 1]) then DropTrailingSpaces(s[..|s| - 1]) else s
  }

  /**
   * `s.strip()`: a contiguous piece of `s` that is cut out of it by
   * removing only whitespace before and after, with no whitespace left at
   * either end; every other character is kept in order.
   */
  function Strip(s: string): (r: string)
    ensures r == "" || (!IsSpace(r[0]) && !IsSpace(r[|r| - 1]))
    ensures exists i :: TrimmedAt(s, i, r)
    ensures NonSpace(r) == NonSpace(s)
  {
    var l := DropLeadingSpaces(s);
    DropLeadingKeepsContent(s);
    DropTrailingKeepsContent(l);
    var r := DropTrailingSpaces(l);
    assert r != "" ==> r[0] == l[0];
    TrimmedBothEnds(s, l, r);
    r
  }

  /**
   * Where `Strip` cuts its result out of the input: dropping whitespace
   * from the front of `s` leaves `l`, and dropping whitespace from the back
   * of `l` leaves `r`.
   */
  lemma TrimmedBothEnds(s: string, l: string, r: string)
    requires |l| <= |s| && l == s[|s| - |l|..]
    requires forall j :: 0 <= j < |s| - |l| ==> IsSpace(s[j])
    requires |r| <= |l| && r == l[..|r|]
    requires forall j :: |r| <= j < |l| ==> IsSpace(l[j])
    ensures TrimmedAt(s, |s| - |l|, r)
  {
    var i := |s| - |l|;
    forall j | i + |r| <= j < |s|
      ensures IsSpace(s[j])
    {
      assert s[j] == l[j - i];
    }
  }

  /** `r` is `s[i..i + |r|]`, and everything of `s` before and after it is whitespace. */
  predicate TrimmedAt(s: string, i: int, r: string) {
    && 0 <= i <= |s| - |r|
    && r == s[i..i + |r|]
    && (forall j :: 0 <= j < i ==> IsSpace(s[j]))
    && (forall j :: i + |r| <= j < |s| ==> IsSpace(s[j]))
  }

  /**
   * `re.sub(r'\s+', ' ', s)`: every maximal run of whitespace becomes one
   * plain space. The result is empty only for empty input, starts with
   * whitespace exactly when the input does, has no two whitespace
   * characters together and keeps the other characters in order.
   */
  function CollapseRuns(s: string): (r: string)
    ensures r == "" <==> s == ""
    ensures r != "" ==> (IsSpace(r[0]) <==> IsSpace(s[0]))
    ensures SpacesCollapsed(r)
    ensures NonSpace(r) == NonSpace(s)
    decreases |s|
  {
    if |s| == 0 then ""
    else if IsSpace(s[0]) then
      var d := DropLeadingSpaces(s);
      var rest := CollapseRuns(d);
      var r := " " + rest;
      assert forall i :: 1 <= i < |r| ==> r[i] == rest[i - 1];
      NonSpaceConcat(" ", rest);
      DropLeadingKeepsContent(s);
      r
    else
      var rest := CollapseRuns(s[1..]);
      var r := [s[0]] + rest;
      assert forall i :: 1 <= i < |r| ==> r[i] == rest[i - 1];
      NonSpaceConcat([s[0]], rest);
      r
  }

  /**
   * `re.sub(r'\s+', ' ', s).strip()`: no whitespace at either end, no two
   * whitespace characters side by side and only plain spaces, while the
   * non-whitespace characters are exactly those of the input, in order.
   */
  function CollapseWhitespace(s: string): (r: string)
    ensures Normalized(r)
    ensures NonSpace(r) == NonSpace(s)
  {
    var c := CollapseRuns(s);
    var l := DropLeadingSpaces(c);
    SpacesCollapsedSlice(c, |c| - |l|, |c|);
    var r := Strip(c);
    SpacesCollapsedSlice(l, 0, |r|);
    r
  }

  /** The non-whitespace characters of `s`, in order. */
  function NonSpace(s: string): string {
    if |s| == 0 then "" else (if IsSpace(s[0]) then "" else [s[0]]) + NonSpace(s[1..])
  }

  /** The shape the whitespace collapse produces. */
  predicate SpacesCollapsed(t: string) {
    && (forall i :: 0 <= i < |t| && IsSpace(t[i]) ==> t[i] == ' ')
    && (forall i :: 0 <= i < |t| - 1 ==> !(IsSpace(t[i]) && IsSpace(t[i + 1])))
  }

  /** No whitespace at either end, no two whitespace characters side by side, only plain spaces. */
  predicate Normalized(t: string) {
    && SpacesCollapsed(t)
    && (t == "" || (!IsSpace(t[0]) && !IsSpace(t[|t| - 1])))
  }

  lemma {:induction false} NonSpaceConcat(a: string, b: string)
    ensures NonSpace(a + b) == NonSpace(a) + NonSpace(b)
    decreases |a|
  {
    if |a| > 0 {
      assert (a + b)[1..] == a[1..] + b;
      NonSpaceConcat(a[1..], b);
    } else {
      assert a + b == b;
    }
  }

  lemma {:induction false} NonSpaceAllSpaces(s: string)
    requires forall i :: 0 <= i < |s| ==> IsSpace(s[i])
    ensures NonSpace(s) == ""
    decreases |s|
  {
    if |s| > 0 {
      NonSpaceAllSpaces(s[1..]);
    }
  }

  lemma DropLeadingKeepsContent(s: string)
    ensures NonSpace(DropLeadingSpaces(s)) == NonSpace(s)
  {
    var l := DropLeadingSpaces(s);
    assert s == s[..|s| - |l|] + l;
    NonSpaceConcat(s[..|s| - |l|], l);
    NonSpaceAllSpaces(s[..|s| - |l|]);
  }

  lemma DropTrailingKeepsContent(s: string)
    ensures NonSpace(DropTrailingSpaces(s)) == NonSpace(s)
  {
    var r := DropTrailingSpaces(s);
    assert s == r + s[|r|..];
    NonSpaceConcat(r, s[|r|..]);
    NonSpaceAllSpaces(s[|r|..]);
  }

  lemma SpacesCollapsedSlice(t: string, a: int, b: int)
    requires 0 <= a <= b <= |t| && SpacesCollapsed(t)
    ensures SpacesCollapsed(t[a..b])
  {
    var u := t[a..b];
    forall i | 0 <= i < |u| - 1
      ensures !(IsSpace(u[i]) && IsSpace(u[i + 1]))
    {
      assert u[i] == t[a + i] && u[i + 1] == t[a + i + 1];
    }
  }

  /** `lstrip` of a concatenation: once `a` has a non-whitespace character, `b` is kept whole. */
  lemma {:induction false} DropLeadingConcat(a: string, b: string)
    ensures DropLeadingSpaces(a + b) ==
      if DropLeadingSpaces(a) == "" then DropLeadingSpaces(b) else DropLeadingSpaces(a) + b
    decreases |a|
  {
    if |a| == 0 {
      assert a + b == b;
    } else if IsSpace(a[0]) {
      assert (a + b)[1..] == a[1..] + b;
      DropLeadingConcat(a[1..], b);
    }
  }

  /** A non-empty run made only of whitespace becomes one plain space. */
  lemma AllSpacesCollapse(w: string)
    requires |w| > 0 && forall i :: 0 <= i < |w| ==> IsSpace(w[i])
    ensures CollapseRuns(w) == " "
  {
    assert DropLeadingSpaces(w) == "";
  }

  /**
   * The collapse works run by run: cutting a string anywhere except inside
   * a run of whitespace, the pieces collapse independently. With
   * `AllSpacesCollapse` and `CollapseRunsIdentity` this says that every
   * whitespace run becomes exactly one space in place and every other
   * character stays where it is.
   */
  lemma {:induction false} CollapseRunsConcat(a: string, b: string)
    requires a == "" || b == "" || !IsSpace(a[|a| - 1]) || !IsSpace(b[0])
    ensures CollapseRuns(a + b) == CollapseRuns(a) + CollapseRuns(b)
    decreases |a|, 1
  {
    if |a| == 0 {
      assert a + b == b;
    } else if IsSpace(a[0]) {
      CollapseRunsConcatRun(a, b);
    } else {
      CollapseRunsConcatWord(a, b);
    }
  }

  /** `CollapseRunsConcat` when `a` opens with a run of whitespace. */
  lemma {:induction false} CollapseRunsConcatRun(a: string, b: string)
    requires |a| > 0 && IsSpace(a[0])
    requires b == "" || !IsSpace(a[|a| - 1]) || !IsSpace(b[0])
    ensures CollapseRuns(a + b) == CollapseRuns(a) + CollapseRuns(b)
    decreases |a|, 0
  {
    var d := DropLeadingSpaces(a);
    if d == "" {
      // `a` is one run of whitespace, and `b` does not continue it.
      RunThenRest(a, b);
    } else {
      assert CollapseRuns(a + b) == " " + CollapseRuns(d + b) by {
        ConcatHead(a, b);
        DropLeadingConcat(a, b);
      }
      assert CollapseRuns(d + b) == CollapseRuns(d) + CollapseRuns(b) by {
        assert d[|d| - 1] == a[|a| - 1];
        CollapseRunsConcat(d, b);
      }
      ConcatAssoc(" ", CollapseRuns(d), CollapseRuns(b));
    }
  }

  /** A whole run of whitespace followed by text that does not continue it. */
  lemma RunThenRest(a: string, b: string)
    requires |a| > 0 && IsSpace(a[0]) && DropLeadingSpaces(a) == ""
    requires b == "" || !IsSpace(b[0])
    ensures CollapseRuns(a + b) == CollapseRuns(a) + CollapseRuns(b)
  {
    assert CollapseRuns(a) == " ";
    assert (a + b)[0] == a[0];
    DropLeadingConcat(a, b);
    assert DropLeadingSpaces(b) == b;
  }

  /** `CollapseRunsConcat` when `a` opens with a non-whitespace character. */
  lemma {:induction false} CollapseRunsConcatWord(a: string, b: string)
    requires |a| > 0 && !IsSpace(a[0])
    requires b == "" || !IsSpace(a[|a| - 1]) || !IsSpace(b[0])
    ensures CollapseRuns(a + b) == CollapseRuns(a) + CollapseRuns(b)
    decreases |a|, 0
  {
    var t := a[1..];
    assert CollapseRuns(a + b) == [a[0]] + CollapseRuns(t + b) by {
      ConcatHead(a, b);
    }
    assert CollapseRuns(t + b) == CollapseRuns(t) + CollapseRuns(b) by {
      if |t| > 0 {
        assert t[|t| - 1] == a[|a| - 1];
      }
      CollapseRunsConcat(t, b);
    }
    ConcatAssoc([a[0]], CollapseRuns(t), CollapseRuns(b));
  }

  lemma ConcatHead(a: string, b: string)
    requires |a| > 0
    ensures (a + b)[0] == a[0] && (a + b)[1..] == a[1..] + b
  {
  }

  lemma ConcatAssoc(x: string, y: string, z: string)
    ensures x + (y + z) == (x + y) + z
  {
  }

  /** Two words with a run of whitespace between them come out joined by one space. */
  lemma CollapseWhitespaceWords(a: string, w: string, b: string)
    requires |a| > 0 && forall i :: 0 <= i < |a| ==> !IsSpace(a[i])
    requires |w| > 0 && forall i :: 0 <= i < |w| ==> IsSpace(w[i])
    requires |b| > 0 && forall i :: 0 <= i < |b| ==> !IsSpace(b[i])
    ensures CollapseWhitespace(a + w + b) == a + " " + b
  {
    var c := a + " " + b;
    assert CollapseRuns(a + w + b) == c by {
      assert CollapseRuns(a + w) == a + " " by {
        CollapseRunsConcat(a, w);
        AllSpacesCollapse(w);
        CollapseRunsIdentity(a);
      }
      assert CollapseRuns(b) == b by {
        CollapseRunsIdentity(b);
      }
      CollapseRunsConcat(a + w, b);
    }
    assert Strip(c) == c by {
      assert DropLeadingSpaces(c) == c;
      assert DropTrailingSpaces(c) == c;
    }
  }

  /** A normalised string is left as it is. */
  lemma {:induction false} CollapseRunsIdentity(t: string)
    requires SpacesCollapsed(t)
    ensures CollapseRuns(t) == t
    decreases |t|
  {
    if |t| > 0 {
      SpacesCollapsedSlice(t, 1, |t|);
      if IsSpace(t[0]) {
        assert |t| > 1 ==> !IsSpace(t[1]);
        assert DropLeadingSpaces(t) == t[1..];
      }
      CollapseRunsIdentity(t[1..]);
    }
  }

  /** Collapsing twice is the same as collapsing once. */
  lemma CollapseWhitespaceIdempotent(s: string)
    ensures CollapseWhitespace(CollapseWhitespace(s)) == CollapseWhitespace(s)
  {
    CollapseRunsIdentity(CollapseWhitespace(s));
  }

  // ---------------------------------------------------------------------
  // Truncation and the whole description pipeline
  // ---------------------------------------------------------------------

  /** The `max_length` default of `truncate_description`. */
  const MaxDescriptionLength := 200
  const Ellipsis := "..."
  /** What an event without a description shows. */
  const Placeholder := "Aucune description disponible."

  /** `s[:max_length] + "..."` when `s` is longer than `max_length`, else `s`. */
  function Truncate(s: string, maxLength: nat): (r: string)
    ensures |r| <= maxLength + |Ellipsis|
    ensures |s| <= maxLength ==> r == s
    ensures |s| > maxLength ==> |r| == maxLength + 3 && r[..maxLength] == s[..maxLength] && r[maxLength..] == Ellipsis
  {
    if |s| > maxLength then s[..maxLength] + Ellipsis else s
  }

  /** Truncating an already truncated text changes nothing. */
  lemma TruncateIdempotent(s: string, maxLength: nat)
    ensures Truncate(Truncate(s, maxLength), maxLength) == Truncate(s, maxLength)
  {
    var r := Truncate(s, maxLength);
    if |s| > maxLength {
      assert r[..maxLength] + Ellipsis == r;
    }
  }

  /**
   * Tag stripping, entity decoding and whitespace collapse, in the order
   * `truncate_description` applies them: normalised text holding the
   * non-whitespace characters of the decoded, tag-free text.
   */
  function CleanedText(s: string, unescape: Unescaper): (r: string)
    ensures Normalized(r)
    ensures NonSpace(r) == NonSpace(unescape(StripTags(s)))
  {
    CollapseWhitespace(unescape(StripTags(s)))
  }

  /** `truncate_description`: None stands for Python's `None`. */
  function TruncateDescription(description: Option<string>, unescape: Unescaper, maxLength: nat): (r: string)
    ensures description == None || description == Some("") ==> r == Placeholder
  {
    if description == None || description == Some("") then Placeholder
    else Truncate(CleanedText(description.value, unescape), maxLength)
  }

  /**
   * A missing or empty description yields the placeholder; any other
   * description yields its cleaned text when that fits the budget,
   * and otherwise the first `maxLength` characters of it followed by
   * "...", `maxLength + 3` characters in all.
   */
  lemma TruncateDescriptionSpec(description: Option<string>, unescape: Unescaper, maxLength: nat)
    ensures var r := TruncateDescription(description, unescape, maxLength);
      && (description == None || description == Some("") ==> r == Placeholder)
      && (description != None && description != Some("") ==>
            var c := CleanedText(description.value, unescape);
            && (|c| <= maxLength ==> r == c)
            && (|c| > maxLength ==> |r| == maxLength + 3 && r == c[..maxLength] + Ellipsis))
  {
  }

  lemma PlaceholderNormalized()
    ensures Normalized(Placeholder)
  {
    forall i | 0 <= i < |Placeholder|
      ensures IsSpace(Placeholder[i]) ==> Placeholder[i] == ' '
    {
    }
  }

  /** Cutting a normalised text at any length and adding the marker keeps it normalised. */
  lemma TruncateKeepsNormalized(c: string, maxLength: nat)
    requires Normalized(c)
    ensures Normalized(Truncate(c, maxLength))
  {
    if |c| > maxLength {
      var r := Truncate(c, maxLength);
      var p := c[..maxLength];
      SpacesCollapsedSlice(c, 0, maxLength);
      assert r == p + Ellipsis;
      forall i | 0 <= i < |r| - 1
        ensures !(IsSpace(r[i]) && IsSpace(r[i + 1]))
      {
        if i + 1 < maxLength {
          assert r[i] == p[i] && r[i + 1] == p[i + 1];
        }
      }
      forall i | 0 <= i < |r| && IsSpace(r[i])
        ensures r[i] == ' '
      {
        if i < maxLength {
          assert r[i] == p[i];
        }
      }
      if maxLength > 0 {
        assert r[0] == c[0];
      }
    }
  }

  /**
   * Whatever the input, the description shown has no whitespace at its
   * ends and no two whitespace characters together; a given description
   * yields at most the budget plus the three-character marker.
   */
  lemma TruncateDescriptionNormalized(description: Option<string>, unescape: Unescaper, maxLength: nat)
    ensures var r := TruncateDescription(description, unescape, maxLength);
      && Normalized(r)
      && (description != None && description != Some("") ==> |r| <= maxLength + |Ellipsis|)
  {
    if description == None || description == Some("") {
      PlaceholderNormalized();
    } else {
      TruncateKeepsNormalized(CleanedText(description.value, unescape), maxLength);
    }
  }

  /**
   * A description made only of markup is not "missing": it comes out
   * empty, not as the placeholder (given that decoding the empty string
   * yields the empty string, as `html.unescape` does).
   */
  lemma MarkupOnlyDescription(unescape: Unescaper)
    requires unescape("") == ""
    ensures TruncateDescription(Some("<p></p>"), unescape, MaxDescriptionLength) == ""
  {
    var s := "<p></p>";
    assert TagAt(s) == Some(3);
    assert s[3..] == "</p>";
    assert TagAt("</p>") == Some(4);
    assert "</p>"[4..] == "";
    assert StripTags(s) == "";
  }

  /** `clean_html_entities`: empty or None gives "", anything else is decoded. */
  function CleanHtmlEntities(text: Option<string>, unescape: Unescaper): (r: string)
    ensures text == None || text == Some("") ==> r == ""
    ensures text != None && text != Some("") ==> r == unescape(text.value)
  {
    if text == None || text == Some("") then "" else unescape(text.value)
  }
}
