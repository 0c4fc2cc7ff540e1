/** The string work of the Springer Nature parser: the rewriting of the raw
    HTML in `SpringerNatureRemoveTagsSmallSub` before it is parsed, and the
    DOI and title normalisation in `SpringerNatureCollectMetadata`. */
module SpringerText {
  import opened Basics
  import opened Strings
  import opened Rewrites

  // ---------------------------------------------------------------------
  // Reference-anchor groups:
  // `(?:(\[)<a data-track="click" data-track-action="reference anchor".*?\/a>(\]|\)))`

  /** The fixed start of a group: a bracket and the opening of the anchor. */
  const AnchorOpen := "[<a data-track=\"click\" data-track-action=\"reference anchor\""

  /** `/a>]` or `/a>)` starts at index `e`. */
  predicate AnchorCloserAt(t: string, e: int)
  {
    0 <= e && e + 4 <= |t| && t[e] == '/' && t[e + 1] == 'a' && t[e + 2] == '>'
    && (t[e + 3] == ']' || t[e + 3] == ')')
  }

  /** Where the lazy `.*?` stops: the first closer at or after `i`, unless a
      newline, which `.` does not cross, comes first. */
  function AnchorClose(t: string, i: nat): (r: Option<nat>)
    requires i <= |t|
    ensures r.Some? ==> i <= r.value && AnchorCloserAt(t, r.value)
    ensures r.Some? ==> forall e :: i <= e < r.value ==> !AnchorCloserAt(t, e) && t[e] != '\n'
    ensures r.None? ==> forall e :: i <= e && AnchorCloserAt(t, e) ==> '\n' in t[i..e]
    decreases |t| - i
  {
    if i + 4 > |t| then None
    else if AnchorCloserAt(t, i) then Some(i)
    else if t[i] == '\n' then None
    else AnchorClose(t, i + 1)
  }

  /** A whole group as the pattern matches it: the fixed start, then anything
      but a newline up to the first closer, then that closer. */
  predicate IsAnchorGroup(g: string)
  {
    && StartsWith(g, AnchorOpen)
    && |g| >= |AnchorOpen| + 4
    && AnchorCloserAt(g, |g| - 4)
    && forall e :: |AnchorOpen| <= e < |g| - 4 ==> !AnchorCloserAt(g, e) && g[e] != '\n'
  }

  /** The length of the group that starts at the beginning of `t`, or 0. */
  function AnchorSpan(t: string): (r: nat)
    ensures r <= |t|
    ensures r > 0 ==> IsAnchorGroup(t[..r])
  {
    if StartsWith(t, AnchorOpen) then
      match AnchorClose(t, |AnchorOpen|)
      case None => 0
      case Some(e) =>
        var g := t[..e + 4];
        assert g[..|AnchorOpen|] == AnchorOpen;
        assert forall k :: |AnchorOpen| <= k < e ==> g[k] == t[k];
        e + 4
    else 0
  }

  /** The first substitution of the stage: every reference-anchor group is
      deleted. */
  function RemoveAnchorGroups(html: string): string
  {
    RemoveSpans(html, AnchorSpan)
  }

  /** The output is the input with disjoint whole groups deleted and every
      other character kept in order; no group starts at a kept character. */
  lemma AnchorGroupsDeleted(html: string)
    ensures var ps := SpanPieces(html, AnchorSpan);
            && Joined(ps) == html
            && Kept(ps) == RemoveAnchorGroups(html)
            && (forall k :: 0 <= k < |ps| && ps[k].Cut? ==> IsAnchorGroup(ps[k].span))
            && (forall k :: 0 <= k < |ps| && ps[k].Keep? ==> AnchorSpan(Joined(ps[k..])) == 0)
  {
    var ps := SpanPieces(html, AnchorSpan);
    RemoveSpansDeletesMatches(html, AnchorSpan);
    forall k | 0 <= k < |ps| && ps[k].Cut? ensures IsAnchorGroup(ps[k].span) {
      CutIsMatch(ps, AnchorSpan, k);
    }
  }

  /** HTML without the fixed start of a group is left as it is. */
  lemma AnchorGroupsNeedOpening(html: string)
    requires !Occurs(html, AnchorOpen)
    ensures RemoveAnchorGroups(html) == html
  {
    forall i | 0 <= i < |html| ensures AnchorSpan(html[i..]) == 0 {
      if StartsWith(html[i..], AnchorOpen) {
        assert html[i..][..|AnchorOpen|] == html[i..i + |AnchorOpen|];
        assert OccursAt(html, AnchorOpen, i);
      }
    }
    RemoveSpansNoMatch(html, AnchorSpan);
  }

  // ---------------------------------------------------------------------
  // No-break and thin spaces.

  /** `re.sub(c, ' ', s)` for a single character `c`. */
  function ReplaceChar(s: string, c: char): (r: string)
    ensures |r| == |s|
    ensures c != ' ' ==> c !in r
    ensures forall k :: 0 <= k < |s| && s[k] != c ==> r[k] == s[k]
  {
    seq(|s|, k requires 0 <= k < |s| => if s[k] == c then ' ' else s[k])
  }

  /** Replacing one white-space character by a plain space leaves the
      non-space text as it was. */
  lemma {:induction false} ReplaceCharKeepsText(s: string, c: char)
    requires IsSpace(c)
    ensures RemoveSpaces(ReplaceChar(s, c)) == RemoveSpaces(s)
  {
    if s != [] {
      ReplaceCharKeepsText(s[1..], c);
      assert ReplaceChar(s, c) == ReplaceChar(s[..1], c) + ReplaceChar(s[1..], c);
      assert s == s[..1] + s[1..];
      RemoveSpacesAppend(ReplaceChar(s[..1], c), ReplaceChar(s[1..], c));
      RemoveSpacesAppend(s[..1], s[1..]);
    }
  }

  /** The two space substitutions: U+00A0 and then U+2009 become spaces. */
  function ReplaceSpecialSpaces(html: string): (r: string)
    ensures |r| == |html| && '\U{00A0}' !in r && '\U{2009}' !in r
    ensures RemoveSpaces(r) == RemoveSpaces(html)
  {
    var once := ReplaceChar(html, '\U{00A0}');
    ReplaceCharKeepsText(html, '\U{00A0}');
    ReplaceCharKeepsText(once, '\U{2009}');
    var r := ReplaceChar(once, '\U{2009}');
    assert '\U{00A0}' !in r by {
      forall k | 0 <= k < |r| ensures r[k] != '\U{00A0}' {
        assert once[k] != '\U{00A0}';
      }
    }
    r
  }

  // ---------------------------------------------------------------------
  // Carets: `re.sub(r"<sup>([\d+|[\u2212\d+])", r"<sup>^\1", s)`.

  /** The class `[\d+|[\u2212\d+]`: a digit, `+`, `|`, `[` or the minus sign
      U+2212. */
  predicate IsCaretClass(c: char)
  {
    IsDigit(c) || c == '+' || c == '|' || c == '[' || c == '\U{2212}'
  }

  /** A `<sup>` at index `i` followed by a character of the class. */
  predicate CaretSite(s: string, i: int)
  {
    0 <= i && i + 6 <= |s| && s[i..i + 5] == "<sup>" && IsCaretClass(s[i + 5])
  }

  function InsertCarets(s: string): string
    decreases |s|
  {
    if s == [] then []
    else if CaretSite(s, 0) then "<sup>^" + [s[5]] + InsertCarets(s[6..])
    else [s[0]] + InsertCarets(s[1..])
  }

  /** The rewrite never changes the first character. */
  lemma InsertCaretsFirst(s: string)
    requires s != []
    ensures InsertCarets(s) != [] && InsertCarets(s)[0] == s[0]
  {
    if CaretSite(s, 0) {
      assert s[0] == s[0..5][0];
    }
  }

  /** A prefix of the output without `<` is a prefix of the input, and the
      rest of the output is the rewrite of the rest of the input. */
  lemma {:induction false} InsertCaretsPrefix(s: string, w: string)
    requires '<' !in w && |w| <= |InsertCarets(s)| && InsertCarets(s)[..|w|] == w
    ensures |w| <= |s| && s[..|w|] == w && InsertCarets(s)[|w|..] == InsertCarets(s[|w|..])
  {
    if w != [] {
      InsertCaretsFirst(s);
      assert s[0] == w[0];
      assert s[0] != '<';
      assert !CaretSite(s, 0);
      var out := InsertCarets(s);
      assert out == [s[0]] + InsertCarets(s[1..]);
      assert InsertCarets(s[1..])[..|w| - 1] == w[1..];
      InsertCaretsPrefix(s[1..], w[1..]);
      assert s[1..][|w| - 1..] == s[|w|..];
    }
  }

  /** A site past a prefix is a site of the rest. */
  lemma CaretSiteShift(p: string, q: string, i: int)
    ensures CaretSite(p + q, i) && i >= |p| ==> CaretSite(q, i - |p|)
  {
    if CaretSite(p + q, i) && i >= |p| {
      assert (p + q)[i..i + 5] == q[i - |p|..i - |p| + 5];
    }
  }

  /** A caret just inserted leaves no site before the rest of the output. */
  lemma NoSiteInCaretHead(c: char, tail: string)
    requires IsCaretClass(c)
    ensures forall i :: 0 <= i < 7 ==> !CaretSite("<sup>^" + [c] + tail, i)
  {
    var out := "<sup>^" + [c] + tail;
    forall i | 0 <= i < 7 ensures !CaretSite(out, i) {
      if i == 0 {
        assert out[5] == '^';
      } else if i + 6 <= |out| {
        assert out[i..i + 5][0] == out[i] == ("<sup>^" + [c])[i];
      }
    }
  }

  /** When the first character is copied, a site at the front of the output
      can only come from a site at the front of the input. */
  lemma FrontSiteFromInput(s: string)
    requires s != []
    ensures CaretSite([s[0]] + InsertCarets(s[1..]), 0) ==> CaretSite(s, 0)
  {
    var tail := InsertCarets(s[1..]);
    var out := [s[0]] + tail;
    if CaretSite(out, 0) {
      assert out[0] == out[0..5][0] == '<';
      assert tail[..4] == "sup>" by { assert tail[..4] == out[1..5]; }
      InsertCaretsPrefix(s[1..], "sup>");
      assert s[1..][4..] == s[5..];
      assert InsertCarets(s[5..]) == tail[4..];
      InsertCaretsFirst(s[5..]);
      assert s[0..5] == "<sup>";
    }
  }

  /** The output has no `<sup>` directly followed by a class character: each
      one found got its caret. */
  lemma {:induction false} InsertCaretsLeavesNoSite(s: string)
    ensures forall i :: !CaretSite(InsertCarets(s), i)
    decreases |s|
  {
    if s != [] {
      var out := InsertCarets(s);
      if CaretSite(s, 0) {
        var c := s[5];
        var head := "<sup>^" + [c];
        var tail := InsertCarets(s[6..]);
        InsertCaretsLeavesNoSite(s[6..]);
        assert out == head + tail;
        NoSiteInCaretHead(c, tail);
        forall i ensures !CaretSite(out, i) {
          CaretSiteShift(head, tail, i);
        }
      } else {
        var tail := InsertCarets(s[1..]);
        InsertCaretsLeavesNoSite(s[1..]);
        assert out == [s[0]] + tail;
        FrontSiteFromInput(s);
        forall i ensures !CaretSite(out, i) {
          CaretSiteShift([s[0]], tail, i);
        }
      }
    }
  }

  /** Input without a `<sup>` followed by a class character is unchanged. */
  lemma {:induction false} InsertCaretsWithoutSites(s: string)
    requires forall i :: !CaretSite(s, i)
    ensures InsertCarets(s) == s
    decreases |s|
  {
    if s != [] {
      assert !CaretSite(s, 0);
      forall i ensures !CaretSite(s[1..], i) {
        if CaretSite(s[1..], i) {
          assert s[1..][i..i + 5] == s[i + 1..i + 6];
          assert s[1..][i + 5] == s[i + 6];
          assert CaretSite(s, i + 1);
        }
      }
      InsertCaretsWithoutSites(s[1..]);
    }
  }

  /** Inserting carets twice inserts them once. */
  lemma InsertCaretsIdempotent(s: string)
    ensures InsertCarets(InsertCarets(s)) == InsertCarets(s)
  {
    InsertCaretsLeavesNoSite(s);
    InsertCaretsWithoutSites(InsertCarets(s));
  }

  /** A caret between a prefix and one character goes with the other
      carets. */
  lemma CaretDropped(p: string, c: char)
    ensures Without(p + "^" + [c], '^') == Without(p + [c], '^')
  {
    assert Without("^", '^') == [];
    WithoutAppend(p, "^", '^');
    assert Without(p + "^", '^') == Without(p, '^');
    WithoutAppend(p + "^", [c], '^');
    WithoutAppend(p, [c], '^');
  }

  /** Carets are the only thing added: deleting every `^` from the output
      and from the input gives the same text. */
  lemma {:induction false} InsertCaretsOnlyAddsCarets(s: string)
    ensures Without(InsertCarets(s), '^') == Without(s, '^')
    decreases |s|
  {
    if s != [] {
      if CaretSite(s, 0) {
        var rest := s[6..];
        InsertCaretsOnlyAddsCarets(rest);
        assert s == s[..5] + [s[5]] + rest;
        assert s[..5] == "<sup>";
        assert "<sup>^" == "<sup>" + "^";
        WithoutAppend("<sup>^" + [s[5]], InsertCarets(rest), '^');
        WithoutAppend("<sup>" + [s[5]], rest, '^');
        CaretDropped("<sup>", s[5]);
      } else {
        InsertCaretsOnlyAddsCarets(s[1..]);
        WithoutAppend([s[0]], InsertCarets(s[1..]), '^');
        WithoutAppend([s[0]], s[1..], '^');
        assert [s[0]] + s[1..] == s;
      }
    }
  }

  /** `SpringerNatureRemoveTagsSmallSub` before the parser takes over: the
      anchor groups go, the special spaces become plain spaces, and carets
      are inserted, in that order. */
  function PrepareHtml(html: string): (r: string)
    ensures forall i :: !CaretSite(r, i)
  {
    InsertCaretsLeavesNoSite(ReplaceSpecialSpaces(RemoveAnchorGroups(html)));
    InsertCarets(ReplaceSpecialSpaces(RemoveAnchorGroups(html)))
  }

  // ---------------------------------------------------------------------
  // DOI and title.

  /** The first of two meta values that is present: `citation_doi` before
      `prism.doi`, `citation_title` before `twitter:title`. */
  function FirstPresent(preferred: Option<string>, fallback: Option<string>): (r: Option<string>)
    ensures preferred.Some? ==> r == preferred
    ensures preferred.None? ==> r == fallback
  {
    if preferred.Some? then preferred else fallback
  }

  /** `re.sub(r'^doi:\s*', '', doi)`. */
  function StripDoiPrefix(d: string): string
  {
    if StartsWith(d, "doi:") then d[4 + SpaceRun(d, 4)..] else d
  }

  /** Then `re.sub(r'\s+', '', doi)`. */
  function NormalizeDoi(d: string): (r: string)
    ensures NoSpace(r)
  {
    RemoveSpaces(StripDoiPrefix(d))
  }

  /** A `doi:` label goes, and with it all white space, wherever it is. */
  lemma NormalizeDoiLabelled(d: string)
    ensures NormalizeDoi("doi:" + d) == RemoveSpaces(d)
  {
    LabelStripped("doi:" + d, d);
    RemoveSpacesSkipsSpaces(d, SpaceRun(d, 0));
  }

  /** The label and the white space after it are dropped from a labelled
      DOI `s` whose text after the label is `d`. */
  lemma LabelStripped(s: string, d: string)
    requires s == "doi:" + d
    ensures StripDoiPrefix(s) == d[SpaceRun(d, 0)..]
  {
    var w := SpaceRun(d, 0);
    assert s[..4] == "doi:";
    assert s[4..] == d;
    SpaceRunIs(s, 4, w);
    assert s[4 + w..] == d[w..];
  }

  /** Without the label only the white space goes. */
  lemma NormalizeDoiUnlabelled(d: string)
    requires !StartsWith(d, "doi:")
    ensures NormalizeDoi(d) == RemoveSpaces(d)
  {
  }

  /** The DOI of the record: `None` when neither meta tag is present. */
  function RecordDoi(citationDoi: Option<string>, prismDoi: Option<string>): (r: Option<string>)
    ensures r.None? <==> citationDoi.None? && prismDoi.None?
    ensures citationDoi.Some? ==> r == Some(NormalizeDoi(citationDoi.value))
    ensures citationDoi.None? && prismDoi.Some? ==> r == Some(NormalizeDoi(prismDoi.value))
    ensures r.Some? ==> NoSpace(r.value)
  {
    match FirstPresent(citationDoi, prismDoi)
    case None => None
    case Some(d) => Some(NormalizeDoi(d))
  }

  /** `re.sub(r'\s+', ' ', title)`: every white-space run becomes one space. */
  function CollapseSpaces(s: string): string
    decreases |s|
  {
    if s == [] then []
    else if IsSpace(s[0]) then " " + CollapseSpaces(s[SpaceRun(s, 0)..])
    else [s[0]] + CollapseSpaces(s[1..])
  }

  /** The only white space is a plain space, and never two in a row. */
  predicate SingleSpaced(s: string)
  {
    (forall k :: 0 <= k < |s| && IsSpace(s[k]) ==> s[k] == ' ')
    && forall k :: 0 <= k < |s| - 1 && IsSpace(s[k]) ==> !IsSpace(s[k + 1])
  }

  lemma CollapseSpacesFirst(s: string)
    requires s != [] && !IsSpace(s[0])
    ensures CollapseSpaces(s) != [] && CollapseSpaces(s)[0] == s[0]
  {
  }

  /** The collapsed title is single-spaced. */
  lemma {:induction false} CollapseSpacesSingleSpaced(s: string)
    ensures SingleSpaced(CollapseSpaces(s))
    decreases |s|
  {
    if s != [] {
      var out := CollapseSpaces(s);
      if IsSpace(s[0]) {
        var rest := s[SpaceRun(s, 0)..];
        CollapseSpacesSingleSpaced(rest);
        assert out == " " + CollapseSpaces(rest);
        if rest != [] {
          CollapseSpacesFirst(rest);
        }
        assert forall k :: 1 <= k < |out| ==> out[k] == CollapseSpaces(rest)[k - 1];
      } else {
        CollapseSpacesSingleSpaced(s[1..]);
        assert out == [s[0]] + CollapseSpaces(s[1..]);
        assert forall k :: 1 <= k < |out| ==> out[k] == CollapseSpaces(s[1..])[k - 1];
      }
    }
  }

  /** A single-spaced string is left as it is. */
  lemma {:induction false} CollapseSpacesKeepsSingleSpaced(s: string)
    requires SingleSpaced(s)
    ensures CollapseSpaces(s) == s
    decreases |s|
  {
    if s != [] {
      if IsSpace(s[0]) {
        assert SpaceRun(s, 0) == 1 by {
          if |s| > 1 { assert !IsSpace(s[1]); }
        }
      }
      assert SingleSpaced(s[1..]) by {
        assert forall k :: 0 <= k < |s| - 1 ==> s[1..][k] == s[k + 1];
      }
      CollapseSpacesKeepsSingleSpaced(s[1..]);
    }
  }

  /** A run of white space between two words becomes exactly one space,
      whatever its length and whatever its characters. */
  lemma CollapseSpacesGap(p: string, w: string, q: string)
    requires w != [] && forall k :: 0 <= k < |w| ==> IsSpace(w[k])
    requires p == [] || !IsSpace(p[|p| - 1])
    requires q == [] || !IsSpace(q[0])
    ensures CollapseSpaces(p + w + q) == CollapseSpaces(p) + " " + CollapseSpaces(q)
  {
    LeadingGap(w, q);
    CollapseSpacesAppend(p, w + q);
    ConcatAssociates(p, w, q);
    ConcatAssociates(CollapseSpaces(p), " ", CollapseSpaces(q));
  }

  /** A string that does not end in white space collapses on its own,
      whatever follows it. */
  lemma {:induction false} CollapseSpacesAppend(p: string, t: string)
    requires p == [] || !IsSpace(p[|p| - 1])
    ensures CollapseSpaces(p + t) == CollapseSpaces(p) + CollapseSpaces(t)
    decreases |p|
  {
    if p == [] {
      assert p + t == t;
    } else {
      var r := if IsSpace(p[0]) then SpaceRun(p, 0) else 1;
      CollapseSpacesAppend(p[r..], t);
      GapStep(p, t, r, CollapseSpaces(t));
    }
  }

  /** The gap at the very start collapses to one space. */
  lemma LeadingGap(w: string, q: string)
    requires w != [] && forall k :: 0 <= k < |w| ==> IsSpace(w[k])
    requires q == [] || !IsSpace(q[0])
    ensures CollapseSpaces(w + q) == " " + CollapseSpaces(q)
  {
    var s := w + q;
    SpaceRunIs(s, 0, |w|);
    assert s[|w|..] == q;
  }

  /** One step of the gap lemma: the first `r` characters of `p` (a run
      of white space, or one other character) collapse the same way
      whatever follows `p`, so a suffix `x` that `p[r..]` gains from `t`
      is gained by `p` too. */
  lemma GapStep(p: string, t: string, r: nat, x: string)
    requires p != [] && !IsSpace(p[|p| - 1])
    requires r == if IsSpace(p[0]) then SpaceRun(p, 0) else 1
    requires r <= |p|
    requires CollapseSpaces(p[r..] + t) == CollapseSpaces(p[r..]) + x
    ensures CollapseSpaces(p + t) == CollapseSpaces(p) + x
  {
    var s := p + t;
    DropAppend(p, t, r);
    var a := CollapseSpaces(p[r..]);
    if IsSpace(p[0]) {
      SpaceRunIs(s, 0, r);
      assert CollapseSpaces(s) == " " + (a + x);
      ConcatAssociates(" ", a, x);
    } else {
      assert s[0] == p[0];
      assert CollapseSpaces(s) == [p[0]] + (a + x);
      ConcatAssociates([p[0]], a, x);
    }
  }

  /** Collapsing is idempotent. */
  lemma CollapseSpacesIdempotent(s: string)
    ensures CollapseSpaces(CollapseSpaces(s)) == CollapseSpaces(s)
  {
    CollapseSpacesSingleSpaced(s);
    CollapseSpacesKeepsSingleSpaced(CollapseSpaces(s));
  }

  /** Collapsing keeps every non-space character, in order. */
  lemma {:induction false} CollapseSpacesKeepsText(s: string)
    ensures RemoveSpaces(CollapseSpaces(s)) == RemoveSpaces(s)
    decreases |s|
  {
    if s != [] {
      if IsSpace(s[0]) {
        var w := SpaceRun(s, 0);
        var rest := s[w..];
        CollapseSpacesKeepsText(rest);
        RemoveSpacesAppend(" ", CollapseSpaces(rest));
        assert s == s[..w] + rest;
        RemoveSpacesAllSpace(s[..w]);
        RemoveSpacesAppend(s[..w], rest);
      } else {
        CollapseSpacesKeepsText(s[1..]);
        RemoveSpacesAppend([s[0]], CollapseSpaces(s[1..]));
        RemoveSpacesAppend([s[0]], s[1..]);
        assert [s[0]] + s[1..] == s;
      }
    }
  }

  /** The title of the record: `None` when neither meta tag is present. */
  function RecordTitle(citationTitle: Option<string>, twitterTitle: Option<string>): (r: Option<string>)
    ensures r.None? <==> citationTitle.None? && twitterTitle.None?
    ensures citationTitle.Some? ==> r == Some(CollapseSpaces(citationTitle.value))
    ensures citationTitle.None? && twitterTitle.Some? ==> r == Some(CollapseSpaces(twitterTitle.value))
    ensures r.Some? ==> SingleSpaced(r.value)
  {
    match FirstPresent(citationTitle, twitterTitle)
    case None => None
    case Some(t) =>
      CollapseSpacesSingleSpaced(t);
      Some(CollapseSpaces(t))
  }
}
