/** The IOP parser: the two rewrites of the raw XML (`IOPReformat` and the
    citation substitution of `IOPRemoveTrash`), the record `IOPCollect`
    builds, and the order of the stages. The parser object's own
    operations are parameters. */
module Iop {
  import opened Basics
  import opened Strings
  import opened Sections
  import opened Rewrites

  // ---------------------------------------------------------------------
  // `xml_str.replace('>/', '>')`

  /** Each `>/`, found left to right without overlap, loses its `/`. */
  function ReplaceSlash(s: string): string
    decreases |s|
  {
    if |s| >= 2 && s[0] == '>' && s[1] == '/' then ">" + ReplaceSlash(s[2..])
    else if s == [] then []
    else [s[0]] + ReplaceSlash(s[1..])
  }

  /** Text without `>/` is left as it is. */
  lemma {:induction false} ReplaceSlashWithout(s: string)
    requires !Occurs(s, ">/")
    ensures ReplaceSlash(s) == s
    decreases |s|
  {
    if s != [] {
      assert !OccursAt(s, ">/", 0);
      assert !Occurs(s[1..], ">/") by {
        forall i | 0 <= i <= |s| - 1 - 2 ensures !OccursAt(s[1..], ">/", i) {
          assert !OccursAt(s, ">/", i + 1);
          assert s[1..][i..i + 2] == s[i + 1..i + 3];
        }
      }
      ReplaceSlashWithout(s[1..]);
    }
  }

  /** Text with a `>/` gets shorter. */
  lemma {:induction false} ReplaceSlashShortens(s: string)
    requires Occurs(s, ">/")
    ensures |ReplaceSlash(s)| < |s|
    decreases |s|
  {
    ReplaceSlashNeverLonger(s);
    if !(|s| >= 2 && s[0] == '>' && s[1] == '/') {
      var i :| 0 <= i <= |s| && OccursAt(s, ">/", i);
      assert s[i..i + 2][0] == s[i] == '>' && s[i..i + 2][1] == s[i + 1] == '/';
      assert i != 0;
      var t := s[1..];
      assert t[i - 1] == '>' && t[i] == '/';
      assert t[i - 1..i + 1] == ">/";
      assert OccursAt(t, ">/", i - 1);
      ReplaceSlashShortens(s[1..]);
    } else {
      ReplaceSlashNeverLonger(s[2..]);
    }
  }

  lemma {:induction false} ReplaceSlashNeverLonger(s: string)
    ensures |ReplaceSlash(s)| <= |s|
    decreases |s|
  {
    if |s| >= 2 && s[0] == '>' && s[1] == '/' {
      ReplaceSlashNeverLonger(s[2..]);
    } else if s != [] {
      ReplaceSlashNeverLonger(s[1..]);
    }
  }

  /** The output equals the input exactly when there is no `>/`. */
  lemma ReplaceSlashFixedIff(s: string)
    ensures ReplaceSlash(s) == s <==> !Occurs(s, ">/")
  {
    if Occurs(s, ">/") {
      ReplaceSlashShortens(s);
    } else {
      ReplaceSlashWithout(s);
    }
  }

  /** Only slashes are removed: deleting every `/` from the output and from
      the input gives the same text. */
  lemma {:induction false} ReplaceSlashOnlyDropsSlashes(s: string)
    ensures Without(ReplaceSlash(s), '/') == Without(s, '/')
    decreases |s|
  {
    if |s| >= 2 && s[0] == '>' && s[1] == '/' {
      ReplaceSlashOnlyDropsSlashes(s[2..]);
      SlashPairDropped(s);
    } else if s != [] {
      ReplaceSlashOnlyDropsSlashes(s[1..]);
      OtherCharKept(s);
    }
  }

  /** The step of `ReplaceSlashOnlyDropsSlashes` at a `>/`. */
  lemma SlashPairDropped(s: string)
    requires |s| >= 2 && s[0] == '>' && s[1] == '/'
    requires Without(ReplaceSlash(s[2..]), '/') == Without(s[2..], '/')
    ensures Without(ReplaceSlash(s), '/') == Without(s, '/')
  {
    var rest := s[2..];
    assert s == ">/" + rest;
    assert ReplaceSlash(s) == ">" + ReplaceSlash(rest);
    WithoutAppend(">/", rest, '/');
    WithoutAppend(">", ReplaceSlash(rest), '/');
    assert Without(">/", '/') == ">" == Without(">", '/');
  }

  /** The step of `ReplaceSlashOnlyDropsSlashes` at any other character. */
  lemma OtherCharKept(s: string)
    requires s != [] && !(|s| >= 2 && s[0] == '>' && s[1] == '/')
    requires Without(ReplaceSlash(s[1..]), '/') == Without(s[1..], '/')
    ensures Without(ReplaceSlash(s), '/') == Without(s, '/')
  {
    WithoutAppend([s[0]], ReplaceSlash(s[1..]), '/');
    WithoutAppend([s[0]], s[1..], '/');
    assert s == [s[0]] + s[1..];
  }

  /** Matches do not overlap and the result is not rescanned, so one pass
      leaves a `>/` behind in `>//`: the rewrite is not idempotent. */
  lemma ReplaceSlashOnePass()
    ensures ReplaceSlash(">//") == ">/"
    ensures ReplaceSlash(ReplaceSlash(">//")) == ">"
  {
    assert ReplaceSlash("/") == "/";
    assert ReplaceSlash(">//") == ">" + ReplaceSlash("/");
    assert ReplaceSlash(">/") == ">" + ReplaceSlash("");
  }

  // ---------------------------------------------------------------------
  // Citation groups: `(?:(\[)?<xref ref-type="bibr".*?(\]|\)))`

  const XrefMarker := "<xref ref-type=\"bibr\""

  /** The first `]` or `)` at or after `i`, unless a newline comes first. */
  function CloserFrom(t: string, i: nat): (r: Option<nat>)
    requires i <= |t|
    ensures r.Some? ==> i <= r.value < |t| && t[r.value] in "])"
    ensures r.Some? ==> forall e :: i <= e < r.value ==> t[e] !in "])\n"
    ensures r.None? ==> forall e :: i <= e < |t| && t[e] in "])" ==> '\n' in t[i..e]
    decreases |t| - i
  {
    if i == |t| then None
    else if t[i] == ']' || t[i] == ')' then Some(i)
    else if t[i] == '\n' then None
    else CloserFrom(t, i + 1)
  }

  /** A whole group as the pattern matches it: an optional `[`, the marker,
      anything but a newline or closer, and the first closer. */
  predicate IsCitationGroup(g: string)
  {
    GroupFrom(g, 0) || GroupFrom(g, 1)
  }

  /** The marker stands at `start`, after a `[` when `start` is 1. */
  predicate GroupFrom(g: string, start: nat)
  {
    && |g| >= start + |XrefMarker| + 1
    && (start == 1 ==> g[0] == '[')
    && g[start..start + |XrefMarker|] == XrefMarker
    && g[|g| - 1] in "])"
    && forall e :: start + |XrefMarker| <= e < |g| - 1 ==> g[e] !in "])\n"
  }

  lemma CitationGroupFrom(t: string, start: nat, e: nat)
    requires start <= 1 && start + |XrefMarker| <= e < |t|
    requires start == 1 ==> t[0] == '['
    requires t[start..start + |XrefMarker|] == XrefMarker
    requires t[e] in "])" && forall k :: start + |XrefMarker| <= k < e ==> t[k] !in "])\n"
    ensures IsCitationGroup(t[..e + 1])
  {
    var g := t[..e + 1];
    assert g[start..start + |XrefMarker|] == t[start..start + |XrefMarker|];
    assert forall k :: start + |XrefMarker| <= k < e ==> g[k] == t[k];
    assert GroupFrom(g, start);
  }

  /** The length of the group that starts at the beginning of `t`, or 0.
      With a `[` first the bracketed form is tried, and failing that the
      bare form, which cannot start at a `[`. */
  function CitationSpan(t: string): (r: nat)
    ensures r <= |t|
    ensures r > 0 ==> IsCitationGroup(t[..r])
  {
    var m := |XrefMarker|;
    if |t| > 0 && t[0] == '[' && StartsWith(t[1..], XrefMarker) && CloserFrom(t, 1 + m).Some? then
      var e := CloserFrom(t, 1 + m).value;
      assert t[1..1 + m] == t[1..][..m];
      CitationGroupFrom(t, 1, e);
      e + 1
    else if StartsWith(t, XrefMarker) && CloserFrom(t, m).Some? then
      var e := CloserFrom(t, m).value;
      assert t[0..m] == t[..m];
      CitationGroupFrom(t, 0, e);
      e + 1
    else 0
  }

  /** The substitution of `IOPRemoveTrash`: every citation group is
      deleted. */
  function RemoveCitations(xml: string): string
  {
    RemoveSpans(xml, CitationSpan)
  }

  /** The output is the input with disjoint whole groups deleted and every
      other character kept in order; no group starts at a kept character. */
  lemma CitationsDeleted(xml: string)
    ensures var ps := SpanPieces(xml, CitationSpan);
            && Joined(ps) == xml
            && Kept(ps) == RemoveCitations(xml)
            && (forall k :: 0 <= k < |ps| && ps[k].Cut? ==> IsCitationGroup(ps[k].span))
            && (forall k :: 0 <= k < |ps| && ps[k].Keep? ==> CitationSpan(Joined(ps[k..])) == 0)
  {
    var ps := SpanPieces(xml, CitationSpan);
    RemoveSpansDeletesMatches(xml, CitationSpan);
    forall k | 0 <= k < |ps| && ps[k].Cut? ensures IsCitationGroup(ps[k].span) {
      CutIsMatch(ps, CitationSpan, k);
    }
  }

  /** XML without the marker is left as it is. */
  lemma CitationsNeedMarker(xml: string)
    requires !Occurs(xml, XrefMarker)
    ensures RemoveCitations(xml) == xml
  {
    var m := |XrefMarker|;
    forall i | 0 <= i < |xml| ensures CitationSpan(xml[i..]) == 0 {
      var t := xml[i..];
      if StartsWith(t, XrefMarker) {
        assert t[..m] == xml[i..i + m];
        assert OccursAt(xml, XrefMarker, i);
      }
      if |t| > 0 && t[0] == '[' && StartsWith(t[1..], XrefMarker) {
        assert t[1..][..m] == xml[i + 1..i + 1 + m];
        assert OccursAt(xml, XrefMarker, i + 1);
      }
    }
    RemoveSpansNoMatch(xml, CitationSpan);
  }

  /** A marker whose line has no closer after it stays in place. */
  lemma UnclosedCitationKept(rest: string)
    requires forall k :: 0 <= k < |rest| ==> rest[k] !in "])"
    ensures CitationSpan(XrefMarker + rest) == 0
    ensures CitationSpan("[" + XrefMarker + rest) == 0
  {
    var m := |XrefMarker|;
    var t := XrefMarker + rest;
    assert forall e :: m <= e < |t| ==> t[e] == rest[e - m];
    var u := "[" + XrefMarker + rest;
    assert forall e :: m + 1 <= e < |u| ==> u[e] == rest[e - m - 1];
    assert u[0] == '[';
  }

  // ---------------------------------------------------------------------
  // `IOPCollect` and the stage order.

  /** The record `IOPCollect` returns; the sections come from the parser. */
  datatype Record = Record(doi: string, keywords: seq<string>, sections: seq<Entry>)

  /** `"".join(doi)` over the article-id strings, no keywords. */
  function CollectRecord(dois: seq<string>, sections: seq<Entry>): (r: Record)
    ensures r.keywords == [] && r.sections == sections
    ensures dois == [] ==> r.doi == ""
    ensures |dois| == 1 ==> r.doi == dois[0]
  {
    Record(Join(dois, ""), [], sections)
  }

  /** Each further article id is appended to the DOI as it is. */
  lemma CollectRecordConcatenates(dois: seq<string>, d: string, sections: seq<Entry>)
    ensures CollectRecord(dois + [d], sections).doi == CollectRecord(dois, sections).doi + d
  {
    if dois == [] {
      assert dois + [d] == [d];
    } else {
      JoinSnoc(dois, d, "");
    }
  }

  /** What the parser object does between the rewrites: re-serialise the
      XML, delete the listed tags, create and rename section tags, and
      read the article ids and the sections. */
  datatype ParserOps = ParserOps(
    reparse: string -> string,
    removeTags: string -> string,
    createTags: string -> string,
    renameSections: string -> string,
    articleIds: string -> seq<string>,
    sectionsOf: string -> seq<Entry>)

  datatype Stage = Reformat | RemoveTrash | CreateTags | ReplaceSectionTag

  /** The string stages in the order they are added to the soup; the
      collecting stage comes last. */
  const IopStages := [Reformat, RemoveTrash, CreateTags, ReplaceSectionTag]

  function RunStage(stage: Stage, xml: string, ops: ParserOps): string
  {
    match stage
    case Reformat => ops.reparse(ReplaceSlash(xml))
    case RemoveTrash => ops.removeTags(RemoveCitations(xml))
    case CreateTags => ops.createTags(xml)
    case ReplaceSectionTag => ops.renameSections(xml)
  }

  /** Each stage's output is the next one's input. */
  function RunStages(stages: seq<Stage>, xml: string, ops: ParserOps): string
  {
    if stages == [] then xml else RunStages(stages[1..], RunStage(stages[0], xml, ops), ops)
  }

  /** `IOPSoup.parse`. */
  function Parse(xml: string, ops: ParserOps): (r: Record)
    ensures r.keywords == []
  {
    var last := RunStages(IopStages, xml, ops);
    CollectRecord(ops.articleIds(last), ops.sectionsOf(last))
  }

  /** The slash rewrite runs first and the citation removal sees its
      output; the section-tag stages follow, and the record is read from
      what they leave. */
  lemma ParseOrder(xml: string, ops: ParserOps)
    ensures var last := ops.renameSections(ops.createTags(ops.removeTags(RemoveCitations(ops.reparse(ReplaceSlash(xml))))));
            Parse(xml, ops) == Record(Join(ops.articleIds(last), ""), [], ops.sectionsOf(last))
  {
    var x1 := RunStage(Reformat, xml, ops);
    var x2 := RunStage(RemoveTrash, x1, ops);
    var x3 := RunStage(CreateTags, x2, ops);
    var x4 := RunStage(ReplaceSectionTag, x3, ops);
    assert RunStages([], x4, ops) == x4;
    assert RunStages(IopStages[3..], x3, ops) == x4;
    assert RunStages(IopStages[2..], x2, ops) == x4;
    assert RunStages(IopStages[1..], x1, ops) == x4;
  }
}
