/** The `#version` stripper `clean` of main.js: one `String.prototype.replace`
    with the pattern `^\s*#version\s+\S+[^\n]*\n?` under the `m` flag and
    without the `g` flag, replaced by the empty string.

    The host renderer prepends its own GLSL ES 3.00 header, so a user
    `#version` directive (section 3.4 of the OpenGL ES Shading Language 3.00
    specification) is taken out first.

    Two definitions are given.  `MatchEndAt` and `FindDirective` follow the
    regular-expression engine: one greedy scan per atom of the pattern, tried
    at every start position from the left.  `DirectiveAt` says declaratively
    which segments the pattern matches.  The lemmas prove that the scan finds
    the leftmost start of any match and, there, the longest match, and so
    pin `Clean` down by the declarative definition alone. */
module VersionDirective {
  import opened Wrappers
  import opened JsText

  /** The literal part of the pattern. */
  const Keyword: string := "#version"

  // ---------------------------------------------------------------------
  // Character runs
  // ---------------------------------------------------------------------

  ghost predicate AllSpace(s: string, i: int, j: int)
    requires 0 <= i <= j <= |s|
  {
    forall k :: i <= k < j ==> IsSpace(s[k])
  }

  ghost predicate NoSpace(s: string, i: int, j: int)
    requires 0 <= i <= j <= |s|
  {
    forall k :: i <= k < j ==> !IsSpace(s[k])
  }

  ghost predicate NoNewline(s: string, i: int, j: int)
    requires 0 <= i <= j <= |s|
  {
    forall k :: i <= k < j ==> s[k] != '\n'
  }

  /** `^` under the `m` flag: the start of the input or just after a line terminator. */
  predicate LineStart(s: string, p: nat)
    requires p <= |s|
  {
    p == 0 || IsLineTerminator(s[p - 1])
  }

  /** A greedy `\s*` from `i`: the end of the run of white space starting there. */
  function SkipSpace(s: string, i: nat): (j: nat)
    requires i <= |s|
    ensures i <= j <= |s|
    ensures AllSpace(s, i, j)
    ensures j < |s| ==> !IsSpace(s[j])
    decreases |s| - i
  {
    if i < |s| && IsSpace(s[i]) then SkipSpace(s, i + 1) else i
  }

  /** A greedy `\S*` from `i`: the end of the run of non-space characters starting there. */
  function SkipNonSpace(s: string, i: nat): (j: nat)
    requires i <= |s|
    ensures i <= j <= |s|
    ensures NoSpace(s, i, j)
    ensures j < |s| ==> IsSpace(s[j])
    decreases |s| - i
  {
    if i < |s| && !IsSpace(s[i]) then SkipNonSpace(s, i + 1) else i
  }

  /** A greedy `[^\n]*` from `i`: the index of the next line feed, or the end. */
  function LineEnd(s: string, i: nat): (j: nat)
    requires i <= |s|
    ensures i <= j <= |s|
    ensures NoNewline(s, i, j)
    ensures j < |s| ==> s[j] == '\n'
    decreases |s| - i
  {
    if i < |s| && s[i] != '\n' then LineEnd(s, i + 1) else i
  }

  // ---------------------------------------------------------------------
  // The engine's view: the first successful attempt at each start
  // ---------------------------------------------------------------------

  /** The end of the match the engine finds when it tries the pattern at `p`:
      `\s*` up to the keyword, the keyword, `\s+`, `\S+`, `[^\n]*`, then the
      optional line feed.  No later atom can fail, so the first path tried
      (every quantifier greedy) is the match. */
  function MatchEndAt(s: string, p: nat): Option<nat>
    requires p <= |s|
  {
    if !LineStart(s, p) then None
    else
      var q := SkipSpace(s, p);
      if q + |Keyword| <= |s| && s[q..q + |Keyword|] == Keyword then
        var r := SkipSpace(s, q + |Keyword|);
        if q + |Keyword| < r < |s| then
          var t := SkipNonSpace(s, r);
          var u := LineEnd(s, t);
          Some(if u < |s| then u + 1 else u)
        else None
      else None
  }

  /** The engine's search: try the start positions `from`, `from + 1`, ... in turn. */
  function FindDirective(s: string, from: nat): Option<(nat, nat)>
    requires from <= |s|
    decreases |s| - from
  {
    match MatchEndAt(s, from)
    case Some(e) => Some((from, e))
    case None => if from == |s| then None else FindDirective(s, from + 1)
  }

  /** `clean(src)`: the source with the first match of the pattern deleted.
      What is deleted is pinned down by `CleanCases` and `DeletedSegmentShape`. */
  function Clean(s: string): (c: string)
    ensures |c| <= |s|
  {
    match FindDirective(s, 0)
    case None => s
    case Some((p, e)) => if p <= e <= |s| then s[..p] + s[e..] else s
  }

  // ---------------------------------------------------------------------
  // The declarative view: which segments the pattern matches
  // ---------------------------------------------------------------------

  /** `[^\n]*\n?` matches `s[t..e]`. */
  ghost predicate LineTail(s: string, t: int, e: int)
    requires 0 <= t <= e <= |s|
  {
    NoNewline(s, t, e) || (t < e && NoNewline(s, t, e - 1) && s[e - 1] == '\n')
  }

  /** `s[p..e]` splits as `\s*` = `s[p..q]`, the keyword, `\s+` up to `r`,
      `\S+` = `s[r..t]`, and `[^\n]*\n?` = `s[t..e]`. */
  ghost predicate Parts(s: string, p: int, q: int, r: int, t: int, e: int)
  {
    && 0 <= p <= q && q + |Keyword| < r < t <= e <= |s|
    && AllSpace(s, p, q)
    && s[q..q + |Keyword|] == Keyword
    && AllSpace(s, q + |Keyword|, r)
    && NoSpace(s, r, t)
    && LineTail(s, t, e)
  }

  /** The pattern, anchored at a line start, matches `s[p..e]`. */
  ghost predicate DirectiveAt(s: string, p: int, e: int)
  {
    && 0 <= p <= e <= |s|
    && LineStart(s, p)
    && exists q, r, t :: Parts(s, p, q, r, t, e)
  }

  /** No match of the pattern starts at `p`. */
  ghost predicate NoMatchAt(s: string, p: int)
  {
    forall e :: !DirectiveAt(s, p, e)
  }

  /** `s[p..e]` is a match, and no match at `p` is longer. */
  ghost predicate LongestAt(s: string, p: int, e: int)
  {
    DirectiveAt(s, p, e) && forall e' :: DirectiveAt(s, p, e') ==> e' <= e
  }

  /** No match starts in `lo..hi`. */
  ghost predicate NoMatchBetween(s: string, lo: int, hi: int)
  {
    forall p :: lo <= p < hi ==> NoMatchAt(s, p)
  }

  /** `s[p..e]` is the match `replace` deletes: no match starts before `p`,
      and no match at `p` is longer. */
  ghost predicate FirstDirective(s: string, p: int, e: int)
  {
    LongestAt(s, p, e) && NoMatchBetween(s, 0, p)
  }

  /** The pattern matches nowhere in `s`. */
  ghost predicate NoDirective(s: string)
  {
    forall p, e :: !DirectiveAt(s, p, e)
  }

  // ---------------------------------------------------------------------
  // The scan agrees with the declarative view
  // ---------------------------------------------------------------------

  /** Two greedy runs of the same class from the same start, both stopped by a
      character outside the class, end at the same place. */
  lemma SpaceRunUnique(s: string, i: nat, j: nat, j': nat)
    requires i <= j <= |s| && i <= j' <= |s|
    requires AllSpace(s, i, j) && (j < |s| ==> !IsSpace(s[j]))
    requires AllSpace(s, i, j') && j' < |s| && !IsSpace(s[j'])
    ensures j == j'
  {
  }

  /** Every match at `p` splits at the very points the greedy scan stops at. */
  lemma PartsFollowScan(s: string, p: nat, q: int, r: int, t: int, e: int)
    requires p <= |s|
    requires Parts(s, p, q, r, t, e)
    ensures q == SkipSpace(s, p)
    ensures r == SkipSpace(s, q + |Keyword|)
    ensures t <= SkipNonSpace(s, r)
  {
    assert s[q] == Keyword[0];
    SpaceRunUnique(s, p, SkipSpace(s, p), q);
    assert !IsSpace(s[r]);
    SpaceRunUnique(s, q + |Keyword|, SkipSpace(s, q + |Keyword|), r);
  }

  /** No match at `p` runs past the end the scan computes. */
  lemma MatchNoLongerThanScan(s: string, p: nat, q: int, r: int, t: int, e: int)
    requires p <= |s|
    requires Parts(s, p, q, r, t, e)
    ensures LineStart(s, p) ==> MatchEndAt(s, p).Some? && e <= MatchEndAt(s, p).value
  {
    PartsFollowScan(s, p, q, r, t, e);
    var t0 := SkipNonSpace(s, r);
    var u := LineEnd(s, t0);
    // the characters of s[t..t0] are not white space, hence not line feeds
    assert NoNewline(s, t, t0) by {
      forall k | t <= k < t0 ensures s[k] != '\n' {
        assert !IsSpace(s[k]);
      }
    }
    if t < e {
      assert NoNewline(s, t, e - 1);
      assert e - 1 <= u;
    }
  }

  /** The scan at `p` succeeds exactly when the pattern matches at `p`, and
      then it returns the longest match. */
  lemma MatchEndAtCorrect(s: string, p: nat)
    requires p <= |s|
    ensures MatchEndAt(s, p).Some? ==> LongestAt(s, p, MatchEndAt(s, p).value)
    ensures MatchEndAt(s, p).None? ==> NoMatchAt(s, p)
  {
    if MatchEndAt(s, p).Some? {
      var q := SkipSpace(s, p);
      var r := SkipSpace(s, q + |Keyword|);
      var t := SkipNonSpace(s, r);
      var e := MatchEndAt(s, p).value;
      assert !IsSpace(s[r]);
      assert LineTail(s, t, e);
      assert Parts(s, p, q, r, t, e);
    }
    forall e | DirectiveAt(s, p, e)
      ensures MatchEndAt(s, p).Some? && e <= MatchEndAt(s, p).value
    {
      var q, r, t :| Parts(s, p, q, r, t, e);
      MatchNoLongerThanScan(s, p, q, r, t, e);
    }
  }

  /** The search from `from` returns the leftmost start at or after `from`
      and the longest match there, or reports that there is none. */
  lemma {:induction false} FindDirectiveCorrect(s: string, from: nat)
    requires from <= |s|
    ensures FindDirective(s, from).None? ==> NoMatchBetween(s, from, |s| + 1)
    ensures FindDirective(s, from).Some? ==>
      && from <= FindDirective(s, from).value.0
      && LongestAt(s, FindDirective(s, from).value.0, FindDirective(s, from).value.1)
      && NoMatchBetween(s, from, FindDirective(s, from).value.0)
    decreases |s| - from
  {
    MatchEndAtCorrect(s, from);
    if MatchEndAt(s, from).None? {
      if from < |s| {
        FindDirectiveCorrect(s, from + 1);
        assert FindDirective(s, from) == FindDirective(s, from + 1);
      }
    }
  }

  // ---------------------------------------------------------------------
  // What clean does
  // ---------------------------------------------------------------------

  /** When the pattern matches somewhere, `Clean` deletes exactly the leftmost,
      longest match and keeps everything around it. */
  lemma CleanDeletesFirstDirective(s: string, p: int, e: int)
    requires FirstDirective(s, p, e)
    ensures Clean(s) == s[..p] + s[e..]
  {
    FindDirectiveCorrect(s, 0);
    assert !NoMatchAt(s, p);
    assert FindDirective(s, 0).Some?;
    var (p0, e0) := FindDirective(s, 0).value;
    assert !NoMatchAt(s, p0);
    assert p0 == p;
    assert e0 == e;
  }

  /** When the pattern matches nowhere, `Clean` returns its input unchanged. */
  lemma CleanKeepsTextWithoutDirective(s: string)
    requires NoDirective(s)
    ensures Clean(s) == s
  {
    FindDirectiveCorrect(s, 0);
  }

  /** `Clean` either changes nothing because there is no match, or deletes the
      one segment that `FirstDirective` singles out: at most one match goes. */
  lemma CleanCases(s: string)
    ensures || (NoDirective(s) && Clean(s) == s)
            || exists p, e :: FirstDirective(s, p, e) && Clean(s) == s[..p] + s[e..]
  {
    FindDirectiveCorrect(s, 0);
    match FindDirective(s, 0)
    case None =>
      forall p, e ensures !DirectiveAt(s, p, e) {
        if 0 <= p <= |s| {
          assert NoMatchAt(s, p);
        }
      }
    case Some((p, e)) =>
      assert FirstDirective(s, p, e);
      CleanDeletesFirstDirective(s, p, e);
  }

  /** The deleted segment starts at a line start and ends just after a line
      feed, or at the end of the text.  Its last line holds the non-space
      token `\S+` and whatever follows it on that line; since `\s+` crosses
      line feeds, that line need not be the one holding `#version`.
      Everything after the segment survives verbatim, and the result is
      shorter than the input. */
  lemma DeletedSegmentShape(s: string, p: int, e: int)
    requires FirstDirective(s, p, e)
    ensures LineStart(s, p) && p < e
    ensures e == |s| || s[e - 1] == '\n'
    ensures exists r :: p < r < e && !IsSpace(s[r]) && NoNewline(s, r, e - 1)
    ensures |Clean(s)| == |s| - (e - p) <= |s|
    ensures Clean(s)[..p] == s[..p] && Clean(s)[p..] == s[e..]
  {
    MatchEndAtCorrect(s, p);
    CleanDeletesFirstDirective(s, p, e);
    assert MatchEndAt(s, p).Some?;
    var q := SkipSpace(s, p);
    var r := SkipSpace(s, q + |Keyword|);
    var t := SkipNonSpace(s, r);
    var u := LineEnd(s, t);
    assert MatchEndAt(s, p).value == e;
    assert !IsSpace(s[r]);
    assert NoNewline(s, r, t) by {
      forall k | r <= k < t ensures s[k] != '\n' {
        assert !IsSpace(s[k]);
      }
    }
    assert NoNewline(s, r, e - 1);
  }

  // ---------------------------------------------------------------------
  // Worked examples
  // ---------------------------------------------------------------------

  /** A match found at the very start leaves only the text after it. */
  lemma CleanAtStart(s: string, e: nat)
    requires MatchEndAt(s, 0) == Some(e)
    ensures e <= |s| && Clean(s) == s[e..]
  {
  }

  /** The directive `#version 100` on a line of its own is matched whole. */
  lemma LoneDirectiveLineMatched(s: string)
    requires s == Keyword + " 100\n"
    ensures Clean(s) == []
  {
    assert s[8] == ' ' && s[9] == '1' && s[10] == '0' && s[11] == '0' && s[12] == '\n';
    assert SkipSpace(s, 0) == 0;
    assert SkipSpace(s, 8) == 9 by {
      assert SkipSpace(s, 9) == 9;
    }
    assert SkipNonSpace(s, 9) == 12 by {
      assert SkipNonSpace(s, 12) == 12;
      assert SkipNonSpace(s, 11) == 12;
      assert SkipNonSpace(s, 10) == 12;
    }
    assert LineEnd(s, 12) == 12;
    CleanAtStart(s, 13);
  }

  /** A leading `#version 300 es` line is matched whole, and the rest of the
      text, here a second directive, is left alone. */
  lemma FirstDirectiveMatched(s: string, rest: string)
    requires s == Keyword + " 300 es\n" + rest
    ensures Clean(s) == rest
  {
    assert s[8] == ' ' && s[9] == '3' && s[10] == '0' && s[11] == '0' && s[12] == ' ';
    assert s[13] == 'e' && s[14] == 's' && s[15] == '\n';
    assert SkipSpace(s, 0) == 0;
    assert SkipSpace(s, 8) == 9 by {
      assert SkipSpace(s, 9) == 9;
    }
    assert SkipNonSpace(s, 9) == 12 by {
      assert SkipNonSpace(s, 12) == 12;
      assert SkipNonSpace(s, 11) == 12;
      assert SkipNonSpace(s, 10) == 12;
    }
    assert LineEnd(s, 12) == 15 by {
      assert LineEnd(s, 15) == 15;
      assert LineEnd(s, 14) == 15;
      assert LineEnd(s, 13) == 15;
    }
    CleanAtStart(s, 16);
    assert s[16..] == rest;
  }

  /** Without the `g` flag only the first directive goes: a second one
      survives, and only a second `Clean` takes that one too. */
  lemma OnlyFirstDirectiveRemoved(s: string, second: string)
    requires second == Keyword + " 100\n"
    requires s == Keyword + " 300 es\n" + second
    ensures Clean(s) == second
    ensures Clean(Clean(s)) == ""
  {
    FirstDirectiveMatched(s, second);
    LoneDirectiveLineMatched(second);
  }

  /** `\s*` also crosses line feeds, so blank lines and indentation in front of
      the directive go with it. */
  lemma LeadingBlankLinesRemoved(s: string, rest: string)
    requires s == "\n  " + Keyword + " 300 es\n" + rest
    ensures Clean(s) == rest
  {
    assert s[0] == '\n' && s[1] == ' ' && s[2] == ' ';
    assert s[3..11] == Keyword;
    assert s[11] == ' ' && s[12] == '3' && s[13] == '0' && s[14] == '0' && s[15] == ' ';
    assert s[16] == 'e' && s[17] == 's' && s[18] == '\n';
    assert SkipSpace(s, 0) == 3 by {
      assert SkipSpace(s, 3) == 3;
      assert SkipSpace(s, 2) == 3;
      assert SkipSpace(s, 1) == 3;
    }
    assert SkipSpace(s, 11) == 12 by {
      assert SkipSpace(s, 12) == 12;
    }
    assert SkipNonSpace(s, 12) == 15 by {
      assert SkipNonSpace(s, 15) == 15;
      assert SkipNonSpace(s, 14) == 15;
      assert SkipNonSpace(s, 13) == 15;
    }
    assert LineEnd(s, 15) == 18 by {
      assert LineEnd(s, 18) == 18;
      assert LineEnd(s, 17) == 18;
      assert LineEnd(s, 16) == 18;
    }
    CleanAtStart(s, 19);
    assert s[19..] == rest;
  }

  /** `\s+` after the keyword crosses a line feed too: a bare `#version` line
      takes the next line, up to its first blank-separated token and the rest
      of that line, with it. */
  lemma BareDirectiveTakesNextLine(s: string, rest: string)
    requires s == Keyword + "\nvoid x;\n" + rest
    ensures Clean(s) == rest
  {
    assert s[8] == '\n' && s[9] == 'v' && s[10] == 'o' && s[11] == 'i' && s[12] == 'd';
    assert s[13] == ' ' && s[14] == 'x' && s[15] == ';' && s[16] == '\n';
    assert SkipSpace(s, 0) == 0;
    assert SkipSpace(s, 8) == 9 by {
      assert SkipSpace(s, 9) == 9;
    }
    assert SkipNonSpace(s, 9) == 13 by {
      assert SkipNonSpace(s, 13) == 13;
      assert SkipNonSpace(s, 12) == 13;
      assert SkipNonSpace(s, 11) == 13;
      assert SkipNonSpace(s, 10) == 13;
    }
    assert LineEnd(s, 13) == 16 by {
      assert LineEnd(s, 16) == 16;
      assert LineEnd(s, 15) == 16;
      assert LineEnd(s, 14) == 16;
    }
    CleanAtStart(s, 17);
    assert s[17..] == rest;
  }
}
