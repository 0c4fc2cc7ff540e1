/** The AIP parser's own logic: the section post-processing of `AIPCollect`
    (the abstract section, the wrapping of untitled strings and the removal
    of enumerators from section names), the missing-body error and the
    heading-id patterns of `AIPCleanArticleBody`, and the `trim` helper and
    DOI scan of `AIPCollectMetadata`. The tree operations of the HTML parser
    itself are inputs here. */
module Aip {
  import opened Basics
  import opened Strings
  import opened Sections

  /** The two ways the AIP stages fail: a `ValueError` with its message, and
      the `StopIteration` that `next` raises on an exhausted iterator. */
  datatype Error = ValueError(message: string) | StopIteration

  // ---------------------------------------------------------------------
  // remove_indexes: the pattern `^([A-z0-9]+)(\.|\s)(\s)+`.

  /** `[A-z0-9]`: the range `A-z` also takes in `[ \ ] ^ _` and the
      backtick, which sit between the two alphabets. */
  predicate IsIndexChar(c: char)
  {
    'A' <= c <= 'z' || IsDigit(c)
  }

  /** The longest run of index characters starting at `i`. */
  function IndexRun(s: string, i: nat): (r: nat)
    requires i <= |s|
    ensures i + r <= |s|
    ensures forall k :: i <= k < i + r ==> IsIndexChar(s[k])
    ensures i + r == |s| || !IsIndexChar(s[i + r])
    decreases |s| - i
  {
    if i < |s| && IsIndexChar(s[i]) then 1 + IndexRun(s, i + 1) else 0
  }

  /** The length of the prefix the pattern matches, or 0 when it does not
      match. Index characters are neither `.` nor white space, so the first
      group can only end where the run of index characters ends, and the
      greedy last group takes every following white-space character. */
  function EnumeratorLength(name: string): (n: nat)
    ensures n <= |name|
  {
    var r := IndexRun(name, 0);
    if 0 < r < |name| && (name[r] == '.' || IsSpace(name[r])) then
      var w := SpaceRun(name, r + 1);
      if w > 0 then r + 1 + w else 0
    else 0
  }

  /** `re.sub(indexes_pattern, '', name)`: the anchored pattern can match
      only once, at the start. */
  function RemoveIndex(name: string): (r: string)
    ensures |r| <= |name| && name == name[..|name| - |r|] + r
  {
    name[EnumeratorLength(name)..]
  }

  /** An enumerator as the pattern describes it: index characters, then a
      `.` or a white-space character, then at least one white-space
      character, and nothing else. */
  ghost predicate IsEnumerator(p: string)
  {
    exists r :: EnumeratorSplit(p, r)
  }

  /** `p` is an enumerator whose run of index characters has length `r`. */
  predicate EnumeratorSplit(p: string, r: int)
  {
    1 <= r && r + 2 <= |p|
    && (forall k :: 0 <= k < r ==> IsIndexChar(p[k]))
    && (p[r] == '.' || IsSpace(p[r]))
    && (forall k :: r < k < |p| ==> IsSpace(p[k]))
  }

  /** The run of index characters is exactly the given stretch. */
  lemma IndexRunIs(s: string, i: nat, n: nat)
    requires i + n <= |s|
    requires forall k :: i <= k < i + n ==> IsIndexChar(s[k])
    requires i + n == |s| || !IsIndexChar(s[i + n])
    ensures IndexRun(s, i) == n
  {
  }

  /** An enumerator followed by a name that does not start with white space
      is removed, and exactly the enumerator is. */
  lemma RemoveIndexStripsEnumerator(p: string, rest: string)
    requires IsEnumerator(p)
    requires rest == [] || !IsSpace(rest[0])
    ensures RemoveIndex(p + rest) == rest
  {
    var r :| EnumeratorSplit(p, r);
    EnumeratorRuns(p, rest, r);
    EnumeratorLengthIs(p + rest, r, |p| - r - 1);
    assert (p + rest)[|p|..] == rest;
  }

  /** The runs `EnumeratorLength` measures on an enumerator followed by a
      name that does not start with white space. */
  lemma EnumeratorRuns(p: string, rest: string, r: int)
    requires EnumeratorSplit(p, r)
    requires rest == [] || !IsSpace(rest[0])
    ensures (p + rest)[r] == p[r]
    ensures IndexRun(p + rest, 0) == r
    ensures SpaceRun(p + rest, r + 1) == |p| - r - 1
  {
    var s := p + rest;
    forall k | 0 <= k < r ensures IsIndexChar(s[k]) {
      assert s[k] == p[k];
    }
    assert s[r] == p[r];
    IndexRunIs(s, 0, r);
    forall k | r + 1 <= k < |p| ensures IsSpace(s[k]) {
      assert s[k] == p[k];
    }
    assert |p| == |s| || s[|p|] == rest[0];
    SpaceRunIs(s, r + 1, |p| - r - 1);
  }

  /** The length of the enumerator from its two runs. */
  lemma EnumeratorLengthIs(s: string, r: nat, w: nat)
    requires 0 < r < |s| && IndexRun(s, 0) == r && (s[r] == '.' || IsSpace(s[r]))
    requires SpaceRun(s, r + 1) == w && w > 0
    ensures EnumeratorLength(s) == r + 1 + w
  {
  }

  /** A name with no enumerator prefix is left as it is. */
  lemma RemoveIndexKeepsPlainName(name: string)
    requires forall i :: 0 <= i <= |name| ==> !IsEnumerator(name[..i])
    ensures RemoveIndex(name) == name
  {
    var n := EnumeratorLength(name);
    if n > 0 {
      var r := IndexRun(name, 0);
      var p := name[..n];
      assert forall k :: 0 <= k < r ==> IsIndexChar(p[k]);
      assert forall k :: r < k < |p| ==> IsSpace(p[k]);
      assert EnumeratorSplit(p, r);
    }
  }

  /** Every name splits into a removed part, empty or an enumerator, and the
      kept rest, which never starts with white space after a removal. */
  lemma RemoveIndexCases(name: string)
    ensures var r := RemoveIndex(name);
            r == name
            || (IsEnumerator(name[..|name| - |r|]) && (r == [] || !IsSpace(r[0])))
  {
    var n := EnumeratorLength(name);
    if n > 0 {
      var r := IndexRun(name, 0);
      var p := name[..n];
      assert forall k :: 0 <= k < r ==> IsIndexChar(p[k]);
      assert forall k :: r < k < |p| ==> IsSpace(p[k]);
      assert EnumeratorSplit(p, r);
      assert |name| - |RemoveIndex(name)| == n;
    }
  }

  /** Index characters are never white space, so an enumerator cannot
      start with a space. */
  lemma IndexCharNotSpace(c: char)
    requires IsIndexChar(c)
    ensures !IsSpace(c)
  {
  }

  /** Index characters followed by a single `.` or white-space character and
      then a non-space are kept: the pattern needs at least two separator
      characters (`3 Discussion`, `1.2. Methods`). */
  lemma RemoveIndexKeepsSingleSeparator(d: string, c: char, rest: string)
    requires d != [] && forall k :: 0 <= k < |d| ==> IsIndexChar(d[k])
    requires c == '.' || IsSpace(c)
    requires rest == [] || !IsSpace(rest[0])
    ensures RemoveIndex(d + [c] + rest) == d + [c] + rest
  {
    var s := d + [c] + rest;
    assert forall k :: 0 <= k < |d| ==> s[k] == d[k];
    assert s[|d|] == c;
    assert c == '.' || IsSpace(c);
    assert !IsIndexChar(c);
    assert IndexRun(s, 0) == |d|;
    assert |d| + 1 == |s| || s[|d| + 1] == rest[0];
    assert SpaceRun(s, |d| + 1) == 0;
  }

  /** A name made only of index characters (`Abstract`) is kept: nothing
      follows the run for the separator. */
  lemma RemoveIndexKeepsBareIndex(name: string)
    requires forall k :: 0 <= k < |name| ==> IsIndexChar(name[k])
    ensures RemoveIndex(name) == name
  {
    assert IndexRun(name, 0) == |name|;
  }

  /** A roman numeral with a dot: `III. Results` becomes `Results`. */
  lemma RemoveIndexStripsRoman()
    ensures RemoveIndex("III. Results") == "Results"
  {
    assert EnumeratorSplit("III. ", 3);
    RemoveIndexStripsEnumerator("III. ", "Results");
    assert "III. " + "Results" == "III. Results";
  }

  /** The whole run of spaces after the separator goes: `A.   Intro`
      becomes `Intro`. */
  lemma RemoveIndexStripsLetter()
    ensures RemoveIndex("A.   Intro") == "Intro"
  {
    assert EnumeratorSplit("A.   ", 1);
    RemoveIndexStripsEnumerator("A.   ", "Intro");
    assert "A.   " + "Intro" == "A.   Intro";
  }

  /** The separator may itself be a space: `3  Discussion` becomes
      `Discussion`. */
  lemma RemoveIndexStripsDoubleSpace()
    ensures RemoveIndex("3  Discussion") == "Discussion"
  {
    assert EnumeratorSplit("3  ", 1);
    RemoveIndexStripsEnumerator("3  ", "Discussion");
    assert "3  " + "Discussion" == "3  Discussion";
  }

  /** `[A-z]` takes in the signs between `Z` and `a`: `_. Notes` becomes
      `Notes`. */
  lemma RemoveIndexStripsUnderscore()
    ensures RemoveIndex("_. Notes") == "Notes"
  {
    assert EnumeratorSplit("_. ", 1);
    RemoveIndexStripsEnumerator("_. ", "Notes");
    assert "_. " + "Notes" == "_. Notes";
  }

  /** A dotted number is kept: after `1.` the pattern needs a space. */
  lemma RemoveIndexKeepsDottedNumber()
    ensures RemoveIndex("1.2. Methods") == "1.2. Methods"
  {
    assert "1" + "." + "2. Methods" == "1.2. Methods";
    RemoveIndexKeepsSingleSeparator("1", '.', "2. Methods");
  }

  /** A number and a single space are kept: `3 Discussion`. */
  lemma RemoveIndexKeepsSingleSpace()
    ensures RemoveIndex("3 Discussion") == "3 Discussion"
  {
    var s := "3 Discussion";
    assert s == s[..1] + [s[1]] + s[2..];
    RemoveIndexKeepsSingleSeparator(s[..1], s[1], s[2..]);
  }

  /** Only the first of two stacked enumerators goes (`A. B. Intro` becomes
      `B. Intro`), so the removal is not idempotent. */
  lemma RemoveIndexNotIdempotent(p: string, q: string, rest: string)
    requires IsEnumerator(p) && IsEnumerator(q)
    requires rest == [] || !IsSpace(rest[0])
    ensures RemoveIndex(p + q + rest) == q + rest
    ensures RemoveIndex(RemoveIndex(p + q + rest)) == rest
  {
    EnumeratorStartsName(q, rest);
    RemoveIndexStripsEnumerator(p, q + rest);
    ConcatAssociates(p, q, rest);
    RemoveIndexStripsEnumerator(q, rest);
  }

  /** An enumerator starts with an index character, which is not white space. */
  lemma EnumeratorStartsName(q: string, rest: string)
    requires IsEnumerator(q)
    ensures q + rest != [] && !IsSpace((q + rest)[0])
  {
    var r :| EnumeratorSplit(q, r);
    IndexCharNotSpace(q[0]);
    assert (q + rest)[0] == q[0];
  }

  // ---------------------------------------------------------------------
  // remove_indexes over the section tree.

  /** The tree after `remove_indexes`: every section name at every depth
      with its enumerator removed, everything else as it was. */
  function EntryIndexesRemoved(e: Entry): Entry
    decreases e, 0
  {
    match e
    case Text(_) => e
    case Sec(k, n, Str(s)) => Sec(k, RemoveIndex(n), Str(s))
    case Sec(k, n, Items(xs)) => Sec(k, RemoveIndex(n), Items(IndexesRemoved(xs)))
  }

  function IndexesRemoved(xs: seq<Entry>): (r: seq<Entry>)
    ensures |r| == |xs|
    decreases xs, 1
  {
    if xs == [] then [] else IndexesRemoved(xs[..|xs| - 1]) + [EntryIndexesRemoved(xs[|xs| - 1])]
  }

  lemma {:induction false} IndexesRemovedAt(xs: seq<Entry>, k: nat)
    requires k < |xs|
    ensures IndexesRemoved(xs)[k] == EntryIndexesRemoved(xs[k])
  {
    if k < |xs| - 1 {
      IndexesRemovedAt(xs[..|xs| - 1], k);
    }
  }

  /** `remove_indexes(sections)`: a loop over the entries that rewrites the
      name of each section and recurses into list content. The source
      rewrites the dictionaries in place; here the rewritten list is
      returned. */
  method RemoveIndexes(sections: seq<Entry>) returns (r: seq<Entry>)
    ensures r == IndexesRemoved(sections)
    decreases SeqSize(sections)
  {
    r := [];
    for k := 0 to |sections|
      invariant r == IndexesRemoved(sections[..k])
    {
      assert sections[..k + 1][..k] == sections[..k];
      var sec := sections[k];
      match sec
      case Text(_) =>
        r := r + [sec];
      case Sec(kind, name, Str(s)) =>
        r := r + [Sec(kind, RemoveIndex(name), Str(s))];
      case Sec(kind, name, Items(xs)) =>
        EntryWithinSeq(sections, k);
        var xs' := RemoveIndexes(xs);
        r := r + [Sec(kind, RemoveIndex(name), Items(xs'))];
    }
    assert sections[..|sections|] == sections;
  }

  /** The section names of a tree in pre-order. */
  function EntryNames(e: Entry): seq<string>
    decreases e, 0
  {
    match e
    case Text(_) => []
    case Sec(_, n, Str(_)) => [n]
    case Sec(_, n, Items(xs)) => [n] + Names(xs)
  }

  function Names(xs: seq<Entry>): seq<string>
    decreases xs, 1
  {
    if xs == [] then [] else Names(xs[..|xs| - 1]) + EntryNames(xs[|xs| - 1])
  }

  /** The tree with every section name blanked: what is left when names are
      ignored. */
  function EntryUnnamed(e: Entry): Entry
    decreases e, 0
  {
    match e
    case Text(_) => e
    case Sec(k, _, Str(s)) => Sec(k, "", Str(s))
    case Sec(k, _, Items(xs)) => Sec(k, "", Items(Unnamed(xs)))
  }

  function Unnamed(xs: seq<Entry>): seq<Entry>
    decreases xs, 1
  {
    if xs == [] then [] else Unnamed(xs[..|xs| - 1]) + [EntryUnnamed(xs[|xs| - 1])]
  }

  /** Each name in turn with its enumerator removed. */
  function RemoveIndexAll(names: seq<string>): (r: seq<string>)
    ensures |r| == |names|
  {
    seq(|names|, k requires 0 <= k < |names| => RemoveIndex(names[k]))
  }

  /** `remove_indexes` changes names only: blank the names and the trees
      before and after are equal. */
  lemma {:induction false} RemoveIndexesChangesOnlyNames(xs: seq<Entry>)
    ensures Unnamed(IndexesRemoved(xs)) == Unnamed(xs)
    decreases xs, 1
  {
    if xs != [] {
      var ys := IndexesRemoved(xs);
      assert ys[..|ys| - 1] == IndexesRemoved(xs[..|xs| - 1]);
      RemoveIndexesChangesOnlyNames(xs[..|xs| - 1]);
      EntryRemoveIndexesChangesOnlyNames(xs[|xs| - 1]);
    }
  }

  lemma {:induction false} EntryRemoveIndexesChangesOnlyNames(e: Entry)
    ensures EntryUnnamed(EntryIndexesRemoved(e)) == EntryUnnamed(e)
    decreases e, 0
  {
    match e
    case Text(_) =>
    case Sec(_, _, Str(_)) =>
    case Sec(_, _, Items(xs)) => RemoveIndexesChangesOnlyNames(xs);
  }

  /** ... and the names, in pre-order, are the old names each with its
      enumerator removed. */
  lemma {:induction false} RemoveIndexesRenames(xs: seq<Entry>)
    ensures Names(IndexesRemoved(xs)) == RemoveIndexAll(Names(xs))
    decreases xs, 1
  {
    if xs != [] {
      var ys := IndexesRemoved(xs);
      assert ys[..|ys| - 1] == IndexesRemoved(xs[..|xs| - 1]);
      RemoveIndexesRenames(xs[..|xs| - 1]);
      EntryRemoveIndexesRenames(xs[|xs| - 1]);
      RemoveIndexAllAppend(Names(xs[..|xs| - 1]), EntryNames(xs[|xs| - 1]));
    }
  }

  lemma {:induction false} EntryRemoveIndexesRenames(e: Entry)
    ensures EntryNames(EntryIndexesRemoved(e)) == RemoveIndexAll(EntryNames(e))
    decreases e, 0
  {
    match e
    case Text(_) =>
    case Sec(_, n, Str(_)) =>
    case Sec(_, n, Items(xs)) =>
      RemoveIndexesRenames(xs);
      RemoveIndexAllAppend([n], Names(xs));
  }

  lemma RemoveIndexAllAppend(a: seq<string>, b: seq<string>)
    ensures RemoveIndexAll(a + b) == RemoveIndexAll(a) + RemoveIndexAll(b)
  {
  }

  /** The texts are untouched. */
  lemma {:induction false} RemoveIndexesKeepsTexts(xs: seq<Entry>)
    ensures Texts(IndexesRemoved(xs)) == Texts(xs)
    decreases xs, 1
  {
    if xs != [] {
      var ys := IndexesRemoved(xs);
      assert ys[..|ys| - 1] == IndexesRemoved(xs[..|xs| - 1]);
      RemoveIndexesKeepsTexts(xs[..|xs| - 1]);
      EntryRemoveIndexesKeepsTexts(xs[|xs| - 1]);
    }
  }

  lemma {:induction false} EntryRemoveIndexesKeepsTexts(e: Entry)
    ensures EntryTexts(EntryIndexesRemoved(e)) == EntryTexts(e)
    decreases e, 0
  {
    match e
    case Text(_) =>
    case Sec(_, _, Str(_)) =>
    case Sec(_, _, Items(xs)) => RemoveIndexesKeepsTexts(xs);
  }

  // ---------------------------------------------------------------------
  // AIPCollect: abstract, body, wrapping, then remove_indexes.

  /** A top-level string as the wrapping loop leaves it: a section with an
      empty type and name whose content is the string. */
  function Wrapped(e: Entry): (r: Entry)
    ensures r.Sec? && EntryTexts(r) == EntryTexts(e)
  {
    if e.Text? then Sec("", "", Str(e.text)) else e
  }

  /** Every top-level entry as the wrapping loop leaves it. */
  function WrapAll(data: seq<Entry>): (r: seq<Entry>)
    ensures |r| == |data|
  {
    seq(|data|, k requires 0 <= k < |data| => Wrapped(data[k]))
  }

  /** After the wrapping every top-level entry is a section, the sections
      are as they were, and the texts are unchanged. */
  lemma WrapAllShape(data: seq<Entry>)
    ensures AllSections(WrapAll(data))
    ensures forall k :: 0 <= k < |data| && data[k].Sec? ==> WrapAll(data)[k] == data[k]
    ensures Texts(WrapAll(data)) == Texts(data)
  {
    TextsPointwise(WrapAll(data), data);
  }

  /** The loop over `data` that overwrites each top-level string in place. */
  method WrapUntitled(data: seq<Entry>) returns (r: seq<Entry>)
    ensures r == WrapAll(data)
  {
    r := data;
    for k := 0 to |data|
      invariant |r| == |data|
      invariant forall j :: 0 <= j < k ==> r[j] == Wrapped(data[j])
      invariant forall j :: k <= j < |data| ==> r[j] == data[j]
    {
      if r[k].Text? {
        r := r[k := Sec("", "", Str(r[k].text))];
      }
    }
  }

  /** `abstract_data + list(full_text)` before the wrapping: the abstract
      section when the abstract element exists, then the body items, none
      when the body element is missing. */
  function Assembled(abstractItems: Option<seq<Entry>>, body: Option<seq<Entry>>): seq<Entry>
  {
    AbstractPart(abstractItems) + BodyItems(body)
  }

  /** `abstract_data`: one section holding the abstract items, or nothing. */
  function AbstractPart(abstractItems: Option<seq<Entry>>): seq<Entry>
  {
    if abstractItems.Some? then [Sec("abstract", "Abstract", Items(abstractItems.value))] else []
  }

  /** `list(full_text)`, empty when the body element is missing. */
  function BodyItems(body: Option<seq<Entry>>): seq<Entry>
  {
    if body.Some? then body.value else []
  }

  /** The `Sections` list `AIPCollect` returns. */
  function Collected(abstractItems: Option<seq<Entry>>, body: Option<seq<Entry>>): seq<Entry>
  {
    IndexesRemoved(WrapAll(Assembled(abstractItems, body)))
  }

  /** `AIPCollect`: the extracted abstract and body items are inputs (`None`
      when the element is missing). The abstract items are appended one by
      one to a fresh section, the top-level strings are wrapped, and the
      enumerators are removed from every name. */
  method Collect(abstractItems: Option<seq<Entry>>, body: Option<seq<Entry>>) returns (sections: seq<Entry>)
    ensures sections == Collected(abstractItems, body)
  {
    var abstractData: seq<Entry> := [];
    if abstractItems.Some? {
      var content: seq<Entry> := [];
      for k := 0 to |abstractItems.value|
        invariant content == abstractItems.value[..k]
      {
        content := content + [abstractItems.value[k]];
      }
      assert abstractItems.value[..|abstractItems.value|] == abstractItems.value;
      abstractData := [Sec("abstract", "Abstract", Items(content))];
    }
    var fullText := BodyItems(body);
    var data := abstractData + fullText;
    var wrapped := WrapUntitled(data);
    sections := RemoveIndexes(wrapped);
  }

  /** With an abstract element the first section is the abstract, typed
      'abstract' and named 'Abstract', holding the abstract items in order
      (with their own names' enumerators removed). */
  lemma CollectedAbstract(abstractItems: seq<Entry>, body: Option<seq<Entry>>)
    ensures var r := Collected(Some(abstractItems), body);
            |r| > 0 && r[0] == Sec("abstract", "Abstract", Items(IndexesRemoved(abstractItems)))
  {
    var sec := Sec("abstract", "Abstract", Items(abstractItems));
    var data := Assembled(Some(abstractItems), body);
    assert data[0] == sec;
    var wrapped := WrapAll(data);
    assert wrapped[0] == sec;
    IndexesRemovedAt(wrapped, 0);
    assert EntryIndexesRemoved(sec) == Sec("abstract", "Abstract", Items(IndexesRemoved(abstractItems))) by {
      AbstractNameKept();
    }
  }

  /** The abstract's own name has no enumerator. */
  lemma AbstractNameKept()
    ensures RemoveIndex("Abstract") == "Abstract"
  {
    var name := "Abstract";
    forall k | 0 <= k < |name|
      ensures IsIndexChar(name[k])
    {
      assert 'A' <= name[k] <= 'z';
    }
    RemoveIndexKeepsBareIndex(name);
  }

  /** The body items follow, each wrapped and renamed, after the abstract
      section if there is one; without a body element there are none. */
  lemma CollectedBody(abstractItems: Option<seq<Entry>>, body: Option<seq<Entry>>)
    ensures var a, items := |AbstractPart(abstractItems)|, BodyItems(body);
            var r := Collected(abstractItems, body);
            && |r| == a + |items|
            && (forall k :: 0 <= k < |items| ==> r[a + k] == EntryIndexesRemoved(Wrapped(items[k])))
  {
    var pre, items := AbstractPart(abstractItems), BodyItems(body);
    assert Collected(abstractItems, body) == IndexesRemoved(WrapAll(pre + items));
    RemovedWrappedAfter(pre, items);
  }

  /** The entries after a prefix `pre` of the collected list are those of
      the input's tail, each wrapped and renamed. */
  lemma RemovedWrappedAfter(pre: seq<Entry>, items: seq<Entry>)
    ensures var r := IndexesRemoved(WrapAll(pre + items));
            && |r| == |pre| + |items|
            && forall k :: 0 <= k < |items| ==> r[|pre| + k] == EntryIndexesRemoved(Wrapped(items[k]))
  {
    forall k | 0 <= k < |items|
      ensures IndexesRemoved(WrapAll(pre + items))[|pre| + k] == EntryIndexesRemoved(Wrapped(items[k]))
    {
      assert (pre + items)[|pre| + k] == items[k];
      RemovedWrappedAt(pre + items, |pre| + k);
    }
  }

  lemma RemovedWrappedAt(data: seq<Entry>, j: nat)
    requires j < |data|
    ensures IndexesRemoved(WrapAll(data))[j] == EntryIndexesRemoved(Wrapped(data[j]))
  {
    IndexesRemovedAt(WrapAll(data), j);
  }

  /** Every collected entry is a section, and the texts are the abstract's
      followed by the body's. */
  lemma CollectedTexts(abstractItems: Option<seq<Entry>>, body: Option<seq<Entry>>)
    ensures AllSections(Collected(abstractItems, body))
    ensures Texts(Collected(abstractItems, body))
            == (if abstractItems.Some? then Texts(abstractItems.value) else [])
               + (if body.Some? then Texts(body.value) else [])
  {
    var data := Assembled(abstractItems, body);
    WrapAllShape(data);
    RemoveIndexesKeepsSections(WrapAll(data));
    RemoveIndexesKeepsTexts(WrapAll(data));
    TextsAppend(AbstractPart(abstractItems), BodyItems(body));
    AbstractPartTexts(abstractItems);
  }

  /** The abstract section holds the texts of the abstract items. */
  lemma AbstractPartTexts(abstractItems: Option<seq<Entry>>)
    ensures Texts(AbstractPart(abstractItems))
            == if abstractItems.Some? then Texts(abstractItems.value) else []
  {
    if abstractItems.Some? {
      TextsSingle(AbstractPart(abstractItems)[0]);
    }
  }

  /** Renaming keeps every entry a section. */
  lemma RemoveIndexesKeepsSections(xs: seq<Entry>)
    requires AllSections(xs)
    ensures AllSections(IndexesRemoved(xs))
  {
    var r := IndexesRemoved(xs);
    forall k | 0 <= k < |r| ensures r[k].Sec? {
      IndexesRemovedAt(xs, k);
      assert xs[k] in xs;
    }
  }

  /** `AIPCleanArticleBody` up to its first tree operation: the stage fails
      when the document has no `fulltext` element, and otherwise goes on
      with that element alone. */
  function CleanArticleBody<T>(fulltext: Option<T>): (r: Result<T, Error>)
    ensures r.Failure? <==> fulltext.None?
    ensures r.Failure? ==> r.error == ValueError("Cannot find article body")
    ensures r.Success? ==> r.value == fulltext.value
  {
    match fulltext
    case None => Failure(ValueError("Cannot find article body"))
    case Some(body) => Success(body)
  }

  // ---------------------------------------------------------------------
  // Heading ids: unanchored searches for `s\d[A-Z]$` and `s\d[A-Z]\d$`.

  /** Python's `$` without MULTILINE: the end of the string, or just before
      a newline that ends it. */
  predicate AtEnd(s: string, q: int)
  {
    q == |s| || (0 <= q == |s| - 1 && s[q] == '\n')
  }

  predicate SecondaryAt(id: string, p: int)
  {
    0 <= p && p + 3 <= |id| && id[p] == 's' && IsDigit(id[p + 1]) && IsUpper(id[p + 2]) && AtEnd(id, p + 3)
  }

  predicate TertiaryAt(id: string, p: int)
  {
    0 <= p && p + 4 <= |id| && id[p] == 's' && IsDigit(id[p + 1]) && IsUpper(id[p + 2])
    && IsDigit(id[p + 3]) && AtEnd(id, p + 4)
  }

  /** `re.search(r's\d[A-Z]$', id)` finds a match: a `sec` with such an id
      has its `h1` child renamed `h2`. */
  predicate IsSecondaryId(id: string)
  {
    exists p :: 0 <= p <= |id| && SecondaryAt(id, p)
  }

  /** `re.search(r's\d[A-Z]\d$', id)` finds a match: the `h2` child becomes
      `h3`. */
  predicate IsTertiaryId(id: string)
  {
    exists p :: 0 <= p <= |id| && TertiaryAt(id, p)
  }

  /** The id without the one final newline that `$` may skip. */
  function Chomped(id: string): (r: string)
    ensures |r| <= |id| && r == id[..|r|]
  {
    if |id| > 0 && id[|id| - 1] == '\n' then id[..|id| - 1] else id
  }

  /** An id is secondary iff, apart from one final newline, it ends in `s`,
      a digit and a capital letter. */
  lemma SecondaryIdEnding(id: string)
    ensures var t := Chomped(id);
            IsSecondaryId(id) <==>
              |t| >= 3 && t[|t| - 3] == 's' && IsDigit(t[|t| - 2]) && IsUpper(t[|t| - 1])
  {
    var t := Chomped(id);
    if |t| >= 3 && t[|t| - 3] == 's' && IsDigit(t[|t| - 2]) && IsUpper(t[|t| - 1]) {
      assert SecondaryAt(id, |t| - 3);
    }
    if IsSecondaryId(id) {
      var p :| 0 <= p <= |id| && SecondaryAt(id, p);
      assert p + 3 == |t|;
    }
  }

  /** An id is tertiary iff, apart from one final newline, it ends in `s`,
      a digit, a capital letter and a digit. */
  lemma TertiaryIdEnding(id: string)
    ensures var t := Chomped(id);
            IsTertiaryId(id) <==>
              |t| >= 4 && t[|t| - 4] == 's' && IsDigit(t[|t| - 3]) && IsUpper(t[|t| - 2])
              && IsDigit(t[|t| - 1])
  {
    var t := Chomped(id);
    if |t| >= 4 && t[|t| - 4] == 's' && IsDigit(t[|t| - 3]) && IsUpper(t[|t| - 2]) && IsDigit(t[|t| - 1]) {
      assert TertiaryAt(id, |t| - 4);
    }
    if IsTertiaryId(id) {
      var p :| 0 <= p <= |id| && TertiaryAt(id, p);
      assert p + 4 == |t|;
    }
  }

  /** No id is both: one ends in a capital letter, the other in a digit. */
  lemma NoIdIsBoth(id: string)
    ensures !(IsSecondaryId(id) && IsTertiaryId(id))
  {
    SecondaryIdEnding(id);
    TertiaryIdEnding(id);
  }

  // ---------------------------------------------------------------------
  // AIPCollectMetadata: trim and the DOI scan.

  /** The string without its leading white space. */
  function TrimStart(s: string): (r: string)
    ensures |r| <= |s| && r == s[|s| - |r|..]
    ensures r == [] || !IsSpace(r[0])
    ensures forall k :: 0 <= k < |s| - |r| ==> IsSpace(s[k])
  {
    if s != [] && IsSpace(s[0]) then TrimStart(s[1..]) else s
  }

  /** The string without its trailing white space. */
  function TrimEnd(s: string): (r: string)
    ensures |r| <= |s| && r == s[..|r|]
    ensures r == [] || !IsSpace(r[|r| - 1])
    ensures forall k :: |r| <= k < |s| ==> IsSpace(s[k])
  {
    if s != [] && IsSpace(s[|s| - 1]) then TrimEnd(s[..|s| - 1]) else s
  }

  /** `r` is `s` from index `i` on, with only white space around it. */
  predicate TrimmedAt(s: string, r: string, i: int)
  {
    0 <= i && i + |r| <= |s| && r == s[i..i + |r|]
    && (forall k :: 0 <= k < i ==> IsSpace(s[k]))
    && (forall k :: i + |r| <= k < |s| ==> IsSpace(s[k]))
  }

  /** `trim = lambda tag: re.sub(r'(^[\s\n]+)|([\s\n]+$)', '', tag)`. The
      second branch matches only the white-space run that reaches the end
      (a run that stops before a final newline would leave out that
      newline, which is white space too), so the two removals are the
      leading and the trailing white space. */
  function Trim(s: string): (r: string)
    ensures r == [] || (!IsSpace(r[0]) && !IsSpace(r[|r| - 1]))
    ensures exists i :: TrimmedAt(s, r, i)
  {
    TrimBothEnds(s);
    TrimEnd(TrimStart(s))
  }

  lemma TrimBothEnds(s: string)
    ensures TrimmedAt(s, TrimEnd(TrimStart(s)), |s| - |TrimStart(s)|)
  {
    var t := TrimStart(s);
    var r := TrimEnd(t);
    assert |t| <= |s| && t == s[|s| - |t|..];
    assert |r| <= |t| && r == t[..|r|];
    TrimmedAtSuffix(s, t, r);
  }

  /** Cutting white space off the front and then off the back leaves a
      slice with only white space around it. */
  lemma TrimmedAtSuffix(s: string, t: string, r: string)
    requires |t| <= |s| && t == s[|s| - |t|..]
    requires forall k :: 0 <= k < |s| - |t| ==> IsSpace(s[k])
    requires |r| <= |t| && r == t[..|r|]
    requires forall k :: |r| <= k < |t| ==> IsSpace(t[k])
    ensures TrimmedAt(s, r, |s| - |t|)
  {
    var i := |s| - |t|;
    assert r == s[i..i + |r|];
    forall k | i + |r| <= k < |s|
      ensures IsSpace(s[k])
    {
      assert s[k] == t[k - i];
    }
  }

  /** Trimming twice is trimming once. */
  lemma TrimIdempotent(s: string)
    ensures Trim(Trim(s)) == Trim(s)
  {
    var r := Trim(s);
    TrimClean(r);
  }

  /** A string that starts and ends with other characters is its own trim. */
  lemma TrimClean(s: string)
    requires s == [] || (!IsSpace(s[0]) && !IsSpace(s[|s| - 1]))
    ensures Trim(s) == s
  {
  }

  lemma {:induction false} TrimStartPadded(pre: string, t: string)
    requires forall k :: 0 <= k < |pre| ==> IsSpace(pre[k])
    requires t == [] || !IsSpace(t[0])
    ensures TrimStart(pre + t) == t
  {
    if pre == [] {
      assert pre + t == t;
    } else {
      assert (pre + t)[1..] == pre[1..] + t;
      TrimStartPadded(pre[1..], t);
    }
  }

  lemma {:induction false} TrimEndPadded(t: string, post: string)
    requires forall k :: 0 <= k < |post| ==> IsSpace(post[k])
    requires t == [] || !IsSpace(t[|t| - 1])
    ensures TrimEnd(t + post) == t
  {
    if post == [] {
      assert t + post == t;
    } else {
      assert (t + post)[..|t + post| - 1] == t + post[..|post| - 1];
      TrimEndPadded(t, post[..|post| - 1]);
    }
  }

  /** Trimming a string padded with white space gives back the string. */
  lemma TrimPadded(pre: string, s: string, post: string)
    requires forall k :: 0 <= k < |pre| ==> IsSpace(pre[k])
    requires forall k :: 0 <= k < |post| ==> IsSpace(post[k])
    requires s == [] || (!IsSpace(s[0]) && !IsSpace(s[|s| - 1]))
    ensures Trim(pre + s + post) == s
  {
    if s == [] {
      assert pre + s + post == pre + post;
      TrimStartPadded(pre + post, []);
      assert pre + post + [] == pre + post;
      assert TrimStart(pre + post) == [];
    } else {
      assert pre + s + post == pre + (s + post);
      TrimStartPadded(pre, s + post);
      TrimEndPadded(s, post);
    }
  }

  /** `https://doi.org/`, the text the look-behind asks for. Its `.` is not
      escaped, so in the pattern it stands for any character but a
      newline. */
  const DoiMarker := "https://doi.org/"

  /** Character `k` of the look-behind pattern accepts `c`. */
  predicate MarkerCharMatches(k: nat, c: char)
    requires k < |DoiMarker|
  {
    if k == 11 then c != '\n' else c == DoiMarker[k]
  }

  /** `w` is text the look-behind pattern accepts. */
  predicate IsMarker(w: string)
  {
    |w| == |DoiMarker| && forall k :: 0 <= k < |DoiMarker| ==> MarkerCharMatches(k, w[k])
  }

  /** The look-behind `(?<=https://doi.org/)` holds at index `p`. */
  predicate MarkerBefore(s: string, p: int)
  {
    |DoiMarker| <= p <= |s| && IsMarker(s[p - |DoiMarker|..p])
  }

  /** The match of `(?<=https://doi.org/).+` can start at `p`: the
      look-behind holds and `.+` has a first character, which is not a
      newline. */
  predicate DoiStartsAt(s: string, p: int)
  {
    MarkerBefore(s, p) && p < |s| && s[p] != '\n'
  }

  /** The leftmost start at or after `p`, which is where `re.search`
      reports its match. */
  function FirstDoiStart(s: string, p: nat): (r: Option<nat>)
    ensures r.Some? ==> p <= r.value && DoiStartsAt(s, r.value)
    ensures r.Some? ==> forall q :: p <= q < r.value ==> !DoiStartsAt(s, q)
    ensures r.None? ==> forall q :: p <= q ==> !DoiStartsAt(s, q)
    decreases |s| - p
  {
    if p >= |s| then None
    else if DoiStartsAt(s, p) then Some(p)
    else FirstDoiStart(s, p + 1)
  }

  /** The first newline at or after `p`, or the end: where the greedy `.+`
      stops. */
  function LineEnd(s: string, p: nat): (r: nat)
    requires p <= |s|
    ensures p <= r <= |s| && (r == |s| || s[r] == '\n')
    ensures forall k :: p <= k < r ==> s[k] != '\n'
    decreases |s| - p
  {
    if p == |s| || s[p] == '\n' then p else LineEnd(s, p + 1)
  }

  /** `re.search(r'(?<=https://doi.org/).+', each)`, then `trim` of the
      matched text; `None` when the search fails. */
  function DoiIn(s: string): Option<string>
  {
    match FirstDoiStart(s, 0)
    case None => None
    case Some(p) => Some(Trim(s[p..LineEnd(s, p)]))
  }

  /** The search finds something exactly when some index after the marker
      holds a character other than a newline, and what it finds lies on a
      single line. */
  lemma DoiInFound(s: string)
    ensures DoiIn(s).Some? <==> exists p :: 0 <= p <= |s| && DoiStartsAt(s, p)
    ensures DoiIn(s).Some? ==> '\n' !in DoiIn(s).value
  {
    var first := FirstDoiStart(s, 0);
    if first.Some? {
      var p := first.value;
      var e := LineEnd(s, p);
      assert '\n' !in s[p..e] by {
        forall k | 0 <= k < e - p ensures s[p..e][k] != '\n' {
          assert s[p..e][k] == s[p + k];
        }
      }
      TrimKeepsOut(s[p..e], '\n');
    }
  }

  /** Trimming adds no character. */
  lemma TrimKeepsOut(line: string, c: char)
    requires c !in line
    ensures c !in Trim(line)
  {
    var d := Trim(line);
    var i :| TrimmedAt(line, d, i);
    forall k | 0 <= k < |d| ensures d[k] != c {
      assert d[k] == line[i + k];
    }
  }

  /** The DOI is the rest of the line after the marker, trimmed: a link
      followed by a clean DOI gives that DOI, and so does a link whose dot
      is any other character but a newline. */
  lemma DoiAfterMarker(dot: char, d: string)
    requires dot != '\n'
    requires d != [] && '\n' !in d && !IsSpace(d[0]) && !IsSpace(d[|d| - 1])
    ensures DoiIn("https://doi" + [dot] + "org/" + d) == Some(d)
  {
    var s := "https://doi" + [dot] + "org/" + d;
    assert s[16..] == d;
    assert MarkerBefore(s, 16) by {
      forall k | 0 <= k < |DoiMarker| ensures MarkerCharMatches(k, s[k]) {
      }
    }
    assert s[16] == d[0];
    assert DoiStartsAt(s, 16);
    var p := FirstDoiStart(s, 0);
    assert p == Some(16);
    assert s[16..|s|] == d;
    assert forall k :: 16 <= k < |s| ==> s[k] == d[k - 16];
    assert LineEnd(s, 16) == |s|;
    TrimClean(d);
  }

  /** What the search finds in each string, trimmed. */
  function Candidates(strings: seq<string>): (r: seq<Option<string>>)
    ensures |r| == |strings|
  {
    seq(|strings|, k requires 0 <= k < |strings| => DoiIn(Trim(strings[k])))
  }

  /** The first present value of a list. */
  function FirstSome<T>(xs: seq<Option<T>>): Option<T>
  {
    if xs == [] then None else if xs[0].Some? then xs[0] else FirstSome(xs[1..])
  }

  /** `FirstSome` is the value at the first present position, and `None`
      exactly when no position has a value. */
  lemma {:induction false} FirstSomeIsFirst<T>(xs: seq<Option<T>>)
    ensures FirstSome(xs).None? <==> forall k :: 0 <= k < |xs| ==> xs[k].None?
    ensures FirstSome(xs).Some? ==>
              exists k :: 0 <= k < |xs| && xs[k] == FirstSome(xs) && forall j :: 0 <= j < k ==> xs[j].None?
  {
    if xs != [] && xs[0].None? {
      var tail := xs[1..];
      FirstSomeIsFirst(tail);
      if FirstSome(tail).Some? {
        var k :| 0 <= k < |tail| && tail[k] == FirstSome(tail) && forall j :: 0 <= j < k ==> tail[j].None?;
        assert xs[k + 1] == tail[k];
        assert forall j :: 0 < j < k + 1 ==> xs[j] == tail[j - 1];
      } else {
        assert forall j :: 0 < j < |xs| ==> xs[j] == tail[j - 1];
      }
    }
  }

  /** The DOI of the first string, trimmed, in which the search finds one,
      as the loop over `meta_info` takes it. */
  function FirstDoi(strings: seq<string>): Option<string>
  {
    FirstSome(Candidates(strings))
  }

  /** The search loop of `AIPCollectMetadata` over the strings after the
      journal: it stops at the first string with a DOI. */
  method ScanDoi(rest: seq<string>) returns (doi: Option<string>)
    ensures doi == FirstDoi(rest)
  {
    doi := None;
    var k := 0;
    while k < |rest|
      invariant 0 <= k <= |rest|
      invariant FirstDoi(rest) == FirstSome(Candidates(rest)[k..])
    {
      assert Candidates(rest)[k..][1..] == Candidates(rest)[k + 1..];
      var found := DoiIn(Trim(rest[k]));
      if found.Some? {
        doi := found;
        return;
      }
      k := k + 1;
    }
  }

  /** The record `AIPCollectMetadata` builds. */
  datatype Metadata = Metadata(doi: string, title: string, journal: string, keywords: seq<string>)

  /** `AIPCollectMetadata`: the title text, the strings of the citation
      block and the keywords are what the parser found. The first trimmed
      string is the journal (`next` fails on an empty block); the DOI comes
      from the strings after it. */
  method CollectMetadata(title: string, meta: seq<string>, keywords: seq<string>)
    returns (r: Result<Metadata, Error>)
    ensures meta == [] ==> r == Failure(StopIteration)
    ensures meta != [] && FirstDoi(meta[1..]).None? ==> r == Failure(ValueError("Cannot find doi."))
    ensures meta != [] && FirstDoi(meta[1..]).Some? ==>
              r == Success(Metadata(FirstDoi(meta[1..]).value, Trim(title), Trim(meta[0]), keywords))
  {
    var trimmedTitle := Trim(title);
    if meta == [] {
      return Failure(StopIteration);
    }
    var journal := Trim(meta[0]);
    var doi := ScanDoi(meta[1..]);
    if doi.None? {
      return Failure(ValueError("Cannot find doi."));
    }
    r := Success(Metadata(doi.value, trimmedTitle, journal, keywords));
  }
}
