/** The section post-processing of the Springer Nature parser
    (`SpringerNatureCollect`): `trim_sections` drops everything from the
    first "ending" section on, and a leading bare string becomes an
    abstract section. Also the missing-body error of
    `SpringerNatureExtractArticleBody`. */
module Springer {
  import opened Basics
  import opened Strings
  import opened Sections

  // ---------------------------------------------------------------------
  // The ending-section rules: `re.compile(r'.*?<keywords>.*?', re.IGNORECASE)`
  // applied with `.match`, so a keyword must start on the first line of the
  // name; between the words of a keyword any white space, newlines included,
  // may stand.

  /** ASCII case folding. */
  function LowerAscii(c: char): char
  {
    if 'A' <= c <= 'Z' then (c as int + 32) as char else c
  }

  /** The lower-case word `w` stands at index `i`, in either case. */
  predicate WordAt(s: string, w: string, i: nat)
    decreases |w|
  {
    i + |w| <= |s| && (w == [] || (LowerAscii(s[i]) == w[0] && WordAt(s, w[1..], i + 1)))
  }

  /** A word stands at `i` when each of its letters matches, folded. */
  lemma {:induction false} WordAtLetters(s: string, w: string, i: nat)
    requires i + |w| <= |s|
    requires forall k :: 0 <= k < |w| ==> LowerAscii(s[i + k]) == w[k]
    ensures WordAt(s, w, i)
    decreases |w|
  {
    if w != [] {
      assert LowerAscii(s[i + 0]) == w[0];
      forall k | 0 <= k < |w| - 1 ensures LowerAscii(s[i + 1 + k]) == w[1..][k] {
        assert LowerAscii(s[i + (k + 1)]) == w[k + 1];
      }
      WordAtLetters(s, w[1..], i + 1);
    }
  }

  /** The words of `phrase` stand from index `i` on, with `\s*` between
      them. The next word starts with a letter, so the white space between
      two words is always the whole run. */
  predicate PhraseAt(s: string, phrase: seq<string>, i: nat)
  {
    PhraseFrom(s, phrase, 0, i)
  }

  /** The words `phrase[n..]` stand from index `i` on. */
  predicate PhraseFrom(s: string, phrase: seq<string>, n: nat, i: nat)
    decreases |phrase| - n
  {
    && n < |phrase|
    && |phrase[n]| > 0
    && WordAt(s, phrase[n], i)
    && (n + 1 == |phrase|
        || PhraseFrom(s, phrase, n + 1, i + |phrase[n]| + SpaceRun(s, i + |phrase[n]|)))
  }

  /** A rule is a list of spellings; only the first has two
      (`acknowledge?ment`). */
  const EndingRules: seq<seq<seq<string>>> := [
    [["acknowledgement"], ["acknowledgment"]],
    [["reference"]],
    [["author", "information"]],
    [["related", "links"]],
    [["about", "this", "article"]],
    [["data", "availability", "statement"]]
  ]

  /** `rule.match(name)`: a spelling of the rule starts at some index before
      the first newline. */
  predicate RuleMatches(rule: seq<seq<string>>, name: string)
  {
    exists p | 0 <= p <= |name| :: '\n' !in name[..p] && exists phrase <- rule :: PhraseAt(name, phrase, p)
  }

  /** Some rule of `rules` matches the name. */
  predicate AnyRuleMatches(rules: seq<seq<seq<string>>>, name: string)
  {
    rules != [] && (RuleMatches(rules[0], name) || AnyRuleMatches(rules[1..], name))
  }

  lemma {:induction false} AnyRuleMatchesSome(rules: seq<seq<seq<string>>>, name: string)
    ensures AnyRuleMatches(rules, name) <==> exists j | 0 <= j < |rules| :: RuleMatches(rules[j], name)
  {
    if rules != [] {
      AnyRuleMatchesSome(rules[1..], name);
      assert forall j | 1 <= j < |rules| :: rules[j] == rules[1..][j - 1];
    }
  }

  /** Some rule among the first `i` of `rules` matches the name. */
  predicate AnyRuleBefore(rules: seq<seq<seq<string>>>, i: nat, name: string)
    requires i <= |rules|
  {
    i > 0 && (AnyRuleBefore(rules, i - 1, name) || RuleMatches(rules[i - 1], name))
  }

  /** Checking the rules one by one from the first finds a match exactly
      when some rule matches. */
  lemma {:induction false} AnyRuleBeforeAll(rules: seq<seq<seq<string>>>, i: nat, name: string)
    requires i <= |rules|
    ensures AnyRuleBefore(rules, i, name) ==> AnyRuleMatches(rules, name)
    ensures i == |rules| ==> (AnyRuleBefore(rules, i, name) <==> AnyRuleMatches(rules, name))
  {
    AnyRuleMatchesSome(rules, name);
    if i > 0 {
      AnyRuleBeforeAll(rules, i - 1, name);
      if RuleMatches(rules[i - 1], name) {
        RuleMatchesSuffices(rules, i - 1, name);
      }
    }
    if i == |rules| && AnyRuleMatches(rules, name) {
      var j :| 0 <= j < |rules| && RuleMatches(rules[j], name);
      RuleBeforeFrom(rules, j, i, name);
    }
  }

  /** A rule that matches is found by any scan that passes it. */
  lemma {:induction false} RuleBeforeFrom(rules: seq<seq<seq<string>>>, j: nat, i: nat, name: string)
    requires j < i <= |rules| && RuleMatches(rules[j], name)
    ensures AnyRuleBefore(rules, i, name)
    decreases i
  {
    if j < i - 1 {
      RuleBeforeFrom(rules, j, i - 1, name);
    }
  }

  /** One matching rule is enough. */
  lemma RuleMatchesSuffices(rules: seq<seq<seq<string>>>, j: nat, name: string)
    requires j < |rules| && RuleMatches(rules[j], name)
    ensures AnyRuleMatches(rules, name)
  {
    AnyRuleMatchesSome(rules, name);
  }

  /** Some ending rule matches the name. */
  predicate IsEndingName(name: string)
  {
    AnyRuleMatches(EndingRules, name)
  }

  /** A spelling of the rule at the start of the name matches it. */
  lemma MatchesAtStart(rule: seq<seq<string>>, phrase: seq<string>, name: string)
    requires phrase in rule && PhraseAt(name, phrase, 0)
    ensures RuleMatches(rule, name)
  {
    assert name[..0] == [];
  }

  lemma AcknowledgementsEnds()
    ensures IsEndingName("Acknowledgements")
  {
    var name := "Acknowledgements";
    WordAtLetters(name, "acknowledgement", 0);
    MatchesAtStart(EndingRules[0], ["acknowledgement"], name);
    AnyRuleMatchesSome(EndingRules, name);
  }

  lemma ReferencesEnds()
    ensures IsEndingName("References")
  {
    var name := "References";
    WordAtLetters(name, "reference", 0);
    MatchesAtStart(EndingRules[1], ["reference"], name);
    AnyRuleMatchesSome(EndingRules, name);
  }

  /** The words of a keyword may be separated by any white space, a line
      break included (`Author\ninformation`), and anything may follow. */
  lemma AuthorInformationEnds(gap: string, rest: string)
    requires gap != [] && forall k :: 0 <= k < |gap| ==> IsSpace(gap[k])
    ensures IsEndingName("Author" + gap + "information" + rest)
  {
    var name := "Author" + gap + "information" + rest;
    AuthorInformationPhrase(gap, rest);
    MatchesAtStart(EndingRules[2], ["author", "information"], name);
    AnyRuleMatchesSome(EndingRules, name);
  }

  lemma AuthorInformationPhrase(gap: string, rest: string)
    requires gap != [] && forall k :: 0 <= k < |gap| ==> IsSpace(gap[k])
    ensures PhraseAt("Author" + gap + "information" + rest, ["author", "information"], 0)
  {
    var first, second := "Author", "information";
    var name := first + gap + second + rest;
    var j := |first| + |gap|;
    AuthorWords();
    PartsInside(first, gap, second, rest);
    WordMoves(first, name, 0, "author", 0, 0);
    WordMoves(second, name, j, "information", 0, j);
    GapRun(first, gap, second + rest);
    TwoWords(name, "author", "information", j);
  }

  /** Where the first and third of four parts stand in their join. */
  lemma PartsInside(a: string, b: string, c: string, d: string)
    ensures Inside(a, a + b + c + d, 0)
    ensures Inside(c, a + b + c + d, |a| + |b|)
    ensures a + b + (c + d) == a + b + c + d
  {
    var s := a + b + c + d;
    assert s[0..0 + |a|] == a;
    assert s[|a| + |b|..|a| + |b| + |c|] == c;
  }

  /** Two words with white space between them make a phrase. */
  lemma TwoWords(s: string, u: string, v: string, j: nat)
    requires u != [] && v != [] && WordAt(s, u, 0) && WordAt(s, v, j)
    requires j == |u| + SpaceRun(s, |u|)
    ensures PhraseAt(s, [u, v], 0)
  {
    var phrase := [u, v];
    PhraseFold(s, phrase, 1, j, j + |v| + SpaceRun(s, j + |v|));
    PhraseFold(s, phrase, 0, 0, j);
  }

  lemma AuthorWords()
    ensures WordAt("Author", "author", 0) && WordAt("information", "information", 0)
    ensures "information"[0] == 'i'
  {
    WordAtLetters("Author", "author", 0);
    WordAtLetters("information", "information", 0);
  }

  /** A run of white space between two words is exactly the gap. */
  lemma GapRun(a: string, gap: string, b: string)
    requires forall k :: 0 <= k < |gap| ==> IsSpace(gap[k])
    requires b != [] && !IsSpace(b[0])
    ensures SpaceRun(a + gap + b, |a|) == |gap|
  {
    var s := a + gap + b;
    forall k | |a| <= k < |a| + |gap| ensures IsSpace(s[k]) {
      assert s[k] == gap[k - |a|];
    }
    assert s[|a| + |gap|] == b[0];
    SpaceRunIs(s, |a|, |gap|);
  }

  /** The total length of the words of a phrase. */
  function WordsLength(phrase: seq<string>): nat
  {
    if phrase == [] then 0 else |phrase[0]| + WordsLength(phrase[1..])
  }

  lemma PhraseFits(s: string, phrase: seq<string>, i: nat)
    requires PhraseAt(s, phrase, i)
    ensures i + WordsLength(phrase) <= |s|
  {
    PhraseFitsFrom(s, phrase, 0, i);
    assert phrase[0..] == phrase;
  }

  lemma {:induction false} PhraseFitsFrom(s: string, phrase: seq<string>, n: nat, i: nat)
    requires PhraseFrom(s, phrase, n, i)
    ensures i + WordsLength(phrase[n..]) <= |s|
    decreases |phrase| - n
  {
    assert phrase[n..][0] == phrase[n] && phrase[n..][1..] == phrase[n + 1..];
    if n + 1 < |phrase| {
      PhraseFitsFrom(s, phrase, n + 1, i + |phrase[n]| + SpaceRun(s, i + |phrase[n]|));
    } else {
      assert phrase[n + 1..] == [];
    }
  }

  /** Every spelling of every rule has at least nine letters. */
  lemma EndingPhrasesAreLong()
    ensures forall j, phrase | 0 <= j < |EndingRules| && phrase in EndingRules[j] :: WordsLength(phrase) >= 9
  {
    assert WordsLength(["acknowledgement"]) == 15;
    assert WordsLength(["acknowledgment"]) == 14;
    assert WordsLength(["reference"]) == 9;
    assert WordsLength(["information"]) == 11;
    assert WordsLength(["author", "information"]) == 17;
    assert WordsLength(["links"]) == 5;
    assert WordsLength(["related", "links"]) == 12;
    assert WordsLength(["article"]) == 7;
    assert WordsLength(["this", "article"]) == 11;
    assert WordsLength(["about", "this", "article"]) == 16;
    assert WordsLength(["statement"]) == 9;
    assert WordsLength(["availability", "statement"]) == 21;
    assert WordsLength(["data", "availability", "statement"]) == 25;
  }

  /** Every spelling of every rule starts with a letter. */
  lemma EndingPhrasesStartWithLetters()
    ensures forall j, phrase | 0 <= j < |EndingRules| && phrase in EndingRules[j] :: 'a' <= phrase[0][0] <= 'z'
  {
  }

  /** A name shorter than the shortest keyword never ends the article, as
      "Methods" or "Results". */
  lemma ShortNamesNeverEnd(name: string)
    requires |name| < 9
    ensures !IsEndingName(name)
  {
    EndingPhrasesAreLong();
    forall j, p, phrase | 0 <= j < |EndingRules| && 0 <= p <= |name| && phrase in EndingRules[j]
      ensures !PhraseAt(name, phrase, p)
    {
      if PhraseAt(name, phrase, p) {
        PhraseFits(name, phrase, p);
      }
    }
    AnyRuleMatchesSome(EndingRules, name);
  }

  /** A name whose first line is empty never ends the article: the keyword
      would have to start on that line. */
  lemma NewlineFirstNeverEnds(rest: string)
    ensures !IsEndingName("\n" + rest)
  {
    var name := "\n" + rest;
    forall p | 0 < p <= |name| ensures '\n' in name[..p] {
      assert name[..p][0] == '\n';
    }
    EndingPhrasesStartWithLetters();
    assert LowerAscii(name[0]) == '\n';
    forall j, phrase | 0 <= j < |EndingRules| && phrase in EndingRules[j]
      ensures !PhraseAt(name, phrase, 0)
    {
      assert 'a' <= phrase[0][0] <= 'z';
    }
    AnyRuleMatchesSome(EndingRules, name);
  }

  /** The keyword may follow other text on the first line. */
  lemma EndingNameAfterText(a: string, b: string)
    requires '\n' !in a && IsEndingName(b)
    ensures IsEndingName(a + b)
  {
    AnyRuleAfterText(EndingRules, a, b);
  }

  lemma {:induction false} AnyRuleAfterText(rules: seq<seq<seq<string>>>, a: string, b: string)
    requires '\n' !in a && AnyRuleMatches(rules, b)
    ensures AnyRuleMatches(rules, a + b)
    decreases |rules|
  {
    if RuleMatches(rules[0], b) {
      RuleAfterText(rules[0], a, b);
    } else {
      AnyRuleAfterText(rules[1..], a, b);
    }
  }

  lemma RuleAfterText(rule: seq<seq<string>>, a: string, b: string)
    requires '\n' !in a && RuleMatches(rule, b)
    ensures RuleMatches(rule, a + b)
  {
    var p, phrase :| 0 <= p <= |b| && '\n' !in b[..p] && phrase in rule && PhraseAt(b, phrase, p);
    assert (a + b)[|a|..|a| + |b|] == b;
    PhraseMoves(b, a + b, |a|, phrase, p, |a| + p);
    assert (a + b)[..|a| + p] == a + b[..p];
  }

  /** `s` stands in `t` from index `off` on. */
  predicate Inside(s: string, t: string, off: nat)
  {
    off + |s| <= |t| && t[off..off + |s|] == s
  }

  /** A phrase keeps matching wherever its text is copied: each word lies
      inside the text, and the white-space run between two words ends at
      the next word, so it is the same run in the larger string. */
  lemma PhraseMoves(s: string, t: string, off: nat, phrase: seq<string>, p: nat, pt: nat)
    requires Inside(s, t, off) && PhraseAt(s, phrase, p) && pt == off + p
    ensures PhraseAt(t, phrase, pt)
  {
    PhraseFromMoves(s, t, off, phrase, 0, p, pt);
  }

  lemma {:induction false} PhraseFromMoves(s: string, t: string, off: nat, phrase: seq<string>, n: nat, p: nat, pt: nat)
    requires Inside(s, t, off) && PhraseFrom(s, phrase, n, p) && pt == off + p
    ensures PhraseFrom(t, phrase, n, pt)
    decreases |phrase| - n
  {
    PhraseUnfold(s, phrase, n, p);
    if n + 1 < |phrase| {
      var q, qt := p + |phrase[n]|, pt + |phrase[n]|;
      var w := SpaceRun(s, q);
      PhraseFromMoves(s, t, off, phrase, n + 1, q + w, qt + w);
      PhraseMovesStep(s, t, off, phrase, n, p, pt);
    } else {
      WordMoves(s, t, off, phrase[n], p, pt);
    }
  }

  /** The word `phrase[n]` moves, and so does the white space after it, when
      the rest of the phrase, already moved, follows. */
  lemma PhraseMovesStep(s: string, t: string, off: nat, phrase: seq<string>, n: nat, p: nat, pt: nat)
    requires Inside(s, t, off) && pt == off + p
    requires n + 1 < |phrase| && |phrase[n]| > 0 && WordAt(s, phrase[n], p)
    requires PhraseFrom(s, phrase, n + 1, p + |phrase[n]| + SpaceRun(s, p + |phrase[n]|))
    requires PhraseFrom(t, phrase, n + 1, pt + |phrase[n]| + SpaceRun(s, p + |phrase[n]|))
    ensures PhraseFrom(t, phrase, n, pt)
  {
    WordMoves(s, t, off, phrase[n], p, pt);
    GapMoves(s, t, off, phrase, n + 1, p + |phrase[n]|, pt + |phrase[n]|);
  }

  /** The white space before the word `phrase[m]` moves with it. */
  lemma GapMoves(s: string, t: string, off: nat, phrase: seq<string>, m: nat, q: nat, qt: nat)
    requires Inside(s, t, off) && q <= |s| && qt == off + q
    requires PhraseFrom(s, phrase, m, q + SpaceRun(s, q))
    ensures SpaceRun(t, qt) == SpaceRun(s, q)
  {
    PhraseUnfold(s, phrase, m, q + SpaceRun(s, q));
    SpaceRunMoves(s, t, off, q, qt);
  }

  /** The word `phrase[n]` and where the rest of the phrase starts. */
  lemma PhraseUnfold(s: string, phrase: seq<string>, n: nat, i: nat)
    requires PhraseFrom(s, phrase, n, i)
    ensures n < |phrase| && |phrase[n]| > 0 && WordAt(s, phrase[n], i)
    ensures n + 1 < |phrase| ==> PhraseFrom(s, phrase, n + 1, i + |phrase[n]| + SpaceRun(s, i + |phrase[n]|))
  {
  }

  /** The word `phrase[n]` followed by the rest of the phrase, which starts
      at `j`, after the white space. */
  lemma PhraseFold(s: string, phrase: seq<string>, n: nat, i: nat, j: nat)
    requires n < |phrase| && |phrase[n]| > 0
    requires WordAt(s, phrase[n], i)
    requires j == i + |phrase[n]| + SpaceRun(s, i + |phrase[n]|)
    requires n + 1 < |phrase| ==> PhraseFrom(s, phrase, n + 1, j)
    ensures PhraseFrom(s, phrase, n, i)
  {
  }

  lemma {:induction false} WordMoves(s: string, t: string, off: nat, w: string, i: nat, ti: nat)
    requires Inside(s, t, off) && WordAt(s, w, i) && ti == off + i
    ensures WordAt(t, w, ti)
    decreases |w|
  {
    if w != [] {
      assert t[ti] == t[off..off + |s|][i];
      WordMoves(s, t, off, w[1..], i + 1, ti + 1);
    }
  }

  /** A white-space run that ends inside `s` is the same run in `t`. */
  lemma {:induction false} SpaceRunMoves(s: string, t: string, off: nat, q: nat, qt: nat)
    requires Inside(s, t, off) && q <= |s| && q + SpaceRun(s, q) < |s| && qt == off + q
    ensures SpaceRun(t, qt) == SpaceRun(s, q)
    decreases |s| - q
  {
    assert t[qt] == t[off..off + |s|][q];
    if IsSpace(s[q]) {
      SpaceRunMoves(s, t, off, q + 1, qt + 1);
    }
  }

  /** Text after a matching name does not undo the match. */
  lemma EndingNameBeforeText(a: string, b: string)
    requires IsEndingName(a)
    ensures IsEndingName(a + b)
  {
    AnyRuleBeforeText(EndingRules, a, b);
  }

  lemma {:induction false} AnyRuleBeforeText(rules: seq<seq<seq<string>>>, a: string, b: string)
    requires AnyRuleMatches(rules, a)
    ensures AnyRuleMatches(rules, a + b)
    decreases |rules|
  {
    if RuleMatches(rules[0], a) {
      RuleBeforeText(rules[0], a, b);
    } else {
      AnyRuleBeforeText(rules[1..], a, b);
    }
  }

  lemma RuleBeforeText(rule: seq<seq<string>>, a: string, b: string)
    requires RuleMatches(rule, a)
    ensures RuleMatches(rule, a + b)
  {
    var p, phrase :| 0 <= p <= |a| && '\n' !in a[..p] && phrase in rule && PhraseAt(a, phrase, p);
    assert (a + b)[0..0 + |a|] == a;
    PhraseMoves(a, a + b, 0, phrase, p, p);
    assert (a + b)[..p] == a[..p];
  }

  // ---------------------------------------------------------------------
  // `trim_sections`, as functions of the flag `section_status['should_trim']`.

  /** What `trim_sections` returns for one entry, and the flag after it. */
  datatype Trim = Trim(keep: bool, entry: Entry, flag: bool)

  /** The list built for `xs`, and the flag after it. */
  datatype Pruned = Pruned(kept: seq<Entry>, flag: bool)

  /** The flag is raised before the content is visited; a string is kept
      unless the flag is up; a list reports whether anything survived. */
  function TrimmedEntry(e: Entry, flag: bool): Trim
    decreases e, 0
  {
    match e
    case Text(_) => Trim(!flag, e, flag)
    case Sec(kind, name, c) =>
      var raised := flag || IsEndingName(name);
      match c
      case Str(_) => Trim(!raised, e, raised)
      case Items(xs) =>
        var p := TrimmedItems(xs, |xs|, raised);
        Trim(|p.kept| > 0, Sec(kind, name, Items(p.kept)), p.flag)
  }

  /** The first `n` entries of a list, left to right, keeping those that
      report "include". */
  function TrimmedItems(xs: seq<Entry>, n: nat, flag: bool): Pruned
    requires n <= |xs|
    decreases xs, 1, n
  {
    if n == 0 then Pruned([], flag)
    else
      var p := TrimmedItems(xs, n - 1, flag);
      var t := TrimmedEntry(xs[n - 1], p.flag);
      Pruned(if t.keep then p.kept + [t.entry] else p.kept, t.flag)
  }

  /** The object that holds the flag shared by every recursive call. */
  class SectionTrimmer {
    var shouldTrim: bool

    constructor()
      ensures !shouldTrim
    {
      shouldTrim := false;
    }

    /** The rule loop of a section: stop at the first rule that matches,
        and only while the flag is down. */
    method CheckName(name: string)
      modifies this
      ensures shouldTrim == (old(shouldTrim) || IsEndingName(name))
    {
      for i := 0 to |EndingRules|
        invariant shouldTrim == (old(shouldTrim) || AnyRuleBefore(EndingRules, i, name))
      {
        if !shouldTrim {
          if RuleMatches(EndingRules[i], name) {
            shouldTrim := true;
            RuleMatchesSuffices(EndingRules, i, name);
            break;
          }
        }
      }
      AnyRuleBeforeAll(EndingRules, |EndingRules|, name);
    }

    /** `trim_sections` on a section record or a bare string. */
    method TrimEntry(e: Entry) returns (keep: bool, r: Entry)
      modifies this
      ensures Trim(keep, r, shouldTrim) == TrimmedEntry(e, old(shouldTrim))
      decreases e, 0
    {
      match e
      case Text(_) =>
        keep, r := !shouldTrim, e;
      case Sec(kind, name, c) =>
        CheckName(name);
        match c
        case Str(_) =>
          keep, r := !shouldTrim, e;
        case Items(xs) =>
          var kept;
          keep, kept := TrimList(xs);
          r := Sec(kind, name, Items(kept));
    }

    /** `trim_sections` on a list: `final_secs` gets each entry that reports
        "include". */
    method TrimList(xs: seq<Entry>) returns (keep: bool, kept: seq<Entry>)
      modifies this
      ensures Pruned(kept, shouldTrim) == TrimmedItems(xs, |xs|, old(shouldTrim))
      ensures keep == (|kept| > 0)
      decreases xs, 1
    {
      kept := [];
      for i := 0 to |xs|
        invariant Pruned(kept, shouldTrim) == TrimmedItems(xs, i, old(shouldTrim))
      {
        var inc, sub := TrimEntry(xs[i]);
        if inc {
          kept := kept + [sub];
        }
      }
      keep := |kept| > 0;
    }
  }

  // ---------------------------------------------------------------------
  // What `trim_sections` keeps, stated over the pre-order walk of the tree.

  /** A step of the pre-order walk: a section is opened, or a string is
      reached. */
  datatype Event = Open(name: string) | Leaf(text: string)

  function EntryEvents(e: Entry): seq<Event>
    decreases e, 0
  {
    match e
    case Text(s) => [Leaf(s)]
    case Sec(_, name, Str(s)) => [Open(name), Leaf(s)]
    case Sec(_, name, Items(xs)) => [Open(name)] + Events(xs, |xs|)
  }

  /** The walk of the first `n` entries. */
  function Events(xs: seq<Entry>, n: nat): seq<Event>
    requires n <= |xs|
    decreases xs, 1, n
  {
    if n == 0 then [] else Events(xs, n - 1) + EntryEvents(xs[n - 1])
  }

  /** The walk opens a section with an ending name. */
  predicate Raises(evs: seq<Event>)
  {
    evs != [] && ((evs[0].Open? && IsEndingName(evs[0].name)) || Raises(evs[1..]))
  }

  lemma {:induction false} RaisesAppend(a: seq<Event>, b: seq<Event>)
    ensures Raises(a + b) == (Raises(a) || Raises(b))
  {
    if a == [] {
      assert a + b == b;
    } else {
      RaisesAppend(a[1..], b);
      assert (a + b)[1..] == a[1..] + b;
    }
  }

  /** The strings reached before the first section with an ending name. */
  function Before(evs: seq<Event>): seq<string>
  {
    if evs == [] then []
    else if evs[0].Open? then (if IsEndingName(evs[0].name) then [] else Before(evs[1..]))
    else [evs[0].text] + Before(evs[1..])
  }

  lemma {:induction false} BeforeAppend(a: seq<Event>, b: seq<Event>)
    ensures Before(a + b) == if Raises(a) then Before(a) else Before(a) + Before(b)
  {
    if a == [] {
      assert a + b == b;
    } else {
      BeforeAppend(a[1..], b);
      assert (a + b)[1..] == a[1..] + b;
    }
  }

  /** The flag after a walk is up iff it was up before or the walk opened a
      section with an ending name. */
  lemma {:induction false} EntryTrimFlag(e: Entry, flag: bool)
    ensures TrimmedEntry(e, flag).flag == (flag || Raises(EntryEvents(e)))
    decreases e, 0
  {
    match e
    case Text(_) =>
    case Sec(_, name, Str(s)) =>
      assert EntryEvents(e)[1..] == [Leaf(s)];
      assert !Raises([Leaf(s)]) by {
        assert [Leaf(s)][1..] == [];
      }
    case Sec(_, name, Items(xs)) =>
      var raised := flag || IsEndingName(name);
      ItemsTrimFlag(xs, |xs|, raised);
      assert EntryEvents(e)[1..] == Events(xs, |xs|);
  }

  lemma {:induction false} ItemsTrimFlag(xs: seq<Entry>, n: nat, flag: bool)
    requires n <= |xs|
    ensures TrimmedItems(xs, n, flag).flag == (flag || Raises(Events(xs, n)))
    decreases xs, 1, n, 1
  {
    if n > 0 {
      ItemsTrimFlag(xs, n - 1, flag);
      ItemsTrimFlagStep(xs, n, flag);
    }
  }

  /** The flag after `n` entries, given the flag after `n - 1`. */
  lemma ItemsTrimFlagStep(xs: seq<Entry>, n: nat, flag: bool)
    requires 0 < n <= |xs|
    requires TrimmedItems(xs, n - 1, flag).flag == (flag || Raises(Events(xs, n - 1)))
    ensures TrimmedItems(xs, n, flag).flag == (flag || Raises(Events(xs, n)))
    decreases xs, 1, n, 0
  {
    var p := TrimmedItems(xs, n - 1, flag);
    EntryTrimFlag(xs[n - 1], p.flag);
    TrimmedItemsStep(xs, n, flag);
    FlagAccumulates(flag, p.flag, TrimmedItems(xs, n, flag).flag, Events(xs, n - 1), EntryEvents(xs[n - 1]));
  }

  /** A flag raised by the first walk or by the second is raised by both
      walks in turn. */
  lemma FlagAccumulates(flag: bool, mid: bool, end: bool, a: seq<Event>, b: seq<Event>)
    requires mid == (flag || Raises(a)) && end == (mid || Raises(b))
    ensures end == (flag || Raises(a + b))
  {
    RaisesAppend(a, b);
  }

  /** The flag after `n` entries is the one the last of them leaves, and
      the last entry is kept after the others when it is kept at all. */
  lemma TrimmedItemsStep(xs: seq<Entry>, n: nat, flag: bool)
    requires 0 < n <= |xs|
    ensures TrimmedItems(xs, n, flag).flag == TrimmedEntry(xs[n - 1], TrimmedItems(xs, n - 1, flag).flag).flag
    ensures var p := TrimmedItems(xs, n - 1, flag);
            var t := TrimmedEntry(xs[n - 1], p.flag);
            TrimmedItems(xs, n, flag).kept == if t.keep then p.kept + [t.entry] else p.kept
    ensures Events(xs, n) == Events(xs, n - 1) + EntryEvents(xs[n - 1])
  {
  }

  /** Once the flag is up nothing is kept, and it stays up. */
  lemma {:induction false} EntryTrimRaised(e: Entry)
    ensures TrimmedEntry(e, true).flag && !TrimmedEntry(e, true).keep
    decreases e, 0
  {
    match e
    case Text(_) =>
    case Sec(_, _, Str(_)) =>
    case Sec(_, _, Items(xs)) =>
      ItemsTrimRaised(xs, |xs|);
  }

  lemma {:induction false} ItemsTrimRaised(xs: seq<Entry>, n: nat)
    requires n <= |xs|
    ensures TrimmedItems(xs, n, true) == Pruned([], true)
    decreases xs, 1, n
  {
    if n > 0 {
      ItemsTrimRaised(xs, n - 1);
      EntryTrimRaised(xs[n - 1]);
    }
  }

  /** The strings of what an entry keeps (none when it is dropped). */
  function KeptTexts(t: Trim): seq<string>
  {
    if t.keep then EntryTexts(t.entry) else []
  }

  lemma TextsSnoc(xs: seq<Entry>, e: Entry)
    ensures Texts(xs + [e]) == Texts(xs) + EntryTexts(e)
  {
    assert (xs + [e])[..|xs|] == xs;
  }

  /** Exactly the strings reached before the flag goes up are kept, each
      unchanged and in order. */
  lemma {:induction false} EntryTrimTexts(e: Entry, flag: bool)
    ensures KeptTexts(TrimmedEntry(e, flag)) == if flag then [] else Before(EntryEvents(e))
    decreases e, 0
  {
    match e
    case Text(s) =>
      assert Before([Leaf(s)]) == [s] + Before([]);
    case Sec(_, name, Str(s)) =>
      assert [Open(name), Leaf(s)][1..] == [Leaf(s)];
      assert Before([Leaf(s)]) == [s] + Before([]);
    case Sec(_, name, Items(xs)) =>
      var raised := flag || IsEndingName(name);
      ItemsTrimTexts(xs, |xs|, raised);
      assert ([Open(name)] + Events(xs, |xs|))[1..] == Events(xs, |xs|);
  }

  lemma {:induction false} ItemsTrimTexts(xs: seq<Entry>, n: nat, flag: bool)
    requires n <= |xs|
    ensures KeptBefore(xs, n, flag)
    ensures Texts(TrimmedItems(xs, n, flag).kept) == if flag then [] else Before(Events(xs, n))
    decreases xs, 1, n, 1
  {
    if n > 0 {
      ItemsTrimTexts(xs, n - 1, flag);
      ItemsTrimTextsStep(xs, n, flag);
    }
  }

  /** The texts kept from the first `n` entries are those before the first
      ending section, and the flag is up exactly when there is one. */
  predicate KeptBefore(xs: seq<Entry>, n: nat, flag: bool)
    requires n <= |xs|
  {
    var p := TrimmedItems(xs, n, flag);
    && Texts(p.kept) == (if flag then [] else Before(Events(xs, n)))
    && p.flag == (flag || Raises(Events(xs, n)))
  }

  /** The induction step of `ItemsTrimTexts`, from `n - 1` items to `n`. */
  lemma ItemsTrimTextsStep(xs: seq<Entry>, n: nat, flag: bool)
    requires 0 < n <= |xs|
    requires KeptBefore(xs, n - 1, flag)
    ensures KeptBefore(xs, n, flag)
    decreases xs, 1, n, 0
  {
    ItemsTrimFlagStep(xs, n, flag);
    var p := TrimmedItems(xs, n - 1, flag);
    var t := TrimmedEntry(xs[n - 1], p.flag);
    var a, b := Events(xs, n - 1), EntryEvents(xs[n - 1]);
    TrimmedItemsStep(xs, n, flag);
    EntryTrimTexts(xs[n - 1], p.flag);
    TrimStepTexts(p.kept, p.flag, t, a, b, flag, TrimmedItems(xs, n, flag).kept, Events(xs, n));
  }

  /** One step of `ItemsTrimTexts`: the texts kept after a walk `a` and then
      an entry with events `b`. */
  lemma TrimStepTexts(kept: seq<Entry>, raised: bool, t: Trim, a: seq<Event>, b: seq<Event>, flag: bool,
                       out: seq<Entry>, ab: seq<Event>)
    requires Texts(kept) == if flag then [] else Before(a)
    requires raised == (flag || Raises(a))
    requires KeptTexts(t) == if raised then [] else Before(b)
    requires out == (if t.keep then kept + [t.entry] else kept) && ab == a + b
    ensures Texts(out) == if flag then [] else Before(ab)
  {
    if t.keep {
      TextsSnoc(kept, t.entry);
    }
    BeforeAppend(a, b);
  }

  // ---------------------------------------------------------------------
  // The shape of what `trim_sections` keeps.

  /** `a` is `b` with some entries of its lists dropped: strings and
      string-content sections unchanged, list sections with the same type
      and name. */
  predicate EntryPrunes(a: Entry, b: Entry)
    decreases b, 0
  {
    match b
    case Text(_) => a == b
    case Sec(_, _, Str(_)) => a == b
    case Sec(kind, name, Items(xs)) =>
      a.Sec? && a.kind == kind && a.name == name && a.content.Items?
      && SubForest(a.content.items, xs, |a.content.items|, |xs|)
  }

  /** `ks[..m]` is an order-preserving selection from `xs[..n]`, each kept
      entry pruning the entry it came from. */
  predicate SubForest(ks: seq<Entry>, xs: seq<Entry>, m: nat, n: nat)
    requires m <= |ks| && n <= |xs|
    decreases xs, 1, n
  {
    if m == 0 then true
    else if n == 0 then false
    else
      || (EntryPrunes(ks[m - 1], xs[n - 1]) && SubForest(ks, xs, m - 1, n - 1))
      || SubForest(ks, xs, m, n - 1)
  }

  /** No section is left with an empty list. */
  predicate NonEmpty(e: Entry)
    decreases e
  {
    match e
    case Text(_) => true
    case Sec(_, _, Str(_)) => true
    case Sec(_, _, Items(xs)) => |xs| > 0 && forall k :: 0 <= k < |xs| ==> NonEmpty(xs[k])
  }

  lemma {:induction false} SubForestSnoc(ks: seq<Entry>, e: Entry, xs: seq<Entry>, m: nat, n: nat)
    requires m <= |ks| && n <= |xs|
    requires SubForest(ks, xs, m, n)
    ensures SubForest(ks + [e], xs, m, n)
    decreases n
  {
    if m > 0 && n > 0 {
      assert (ks + [e])[m - 1] == ks[m - 1];
      if EntryPrunes(ks[m - 1], xs[n - 1]) && SubForest(ks, xs, m - 1, n - 1) {
        SubForestSnoc(ks, e, xs, m - 1, n - 1);
      } else {
        SubForestSnoc(ks, e, xs, m, n - 1);
      }
    }
  }

  /** A kept entry prunes the entry it came from and has no empty
      section. */
  lemma {:induction false} EntryTrimShape(e: Entry, flag: bool)
    ensures var t := TrimmedEntry(e, flag); t.keep ==> EntryPrunes(t.entry, e) && NonEmpty(t.entry)
    decreases e, 0
  {
    match e
    case Text(_) =>
    case Sec(_, _, Str(_)) =>
    case Sec(_, name, Items(xs)) =>
      ItemsTrimShape(xs, |xs|, flag || IsEndingName(name));
  }

  /** The kept list is an order-preserving selection of pruned entries,
      none of them an empty section. */
  lemma {:induction false} ItemsTrimShape(xs: seq<Entry>, n: nat, flag: bool)
    requires n <= |xs|
    ensures var p := TrimmedItems(xs, n, flag);
            SubForest(p.kept, xs, |p.kept|, n) && forall k :: 0 <= k < |p.kept| ==> NonEmpty(p.kept[k])
    decreases xs, 1, n
  {
    if n > 0 {
      var p := TrimmedItems(xs, n - 1, flag);
      var t := TrimmedEntry(xs[n - 1], p.flag);
      ItemsTrimShape(xs, n - 1, flag);
      EntryTrimShape(xs[n - 1], p.flag);
      if t.keep {
        var ks := p.kept + [t.entry];
        SubForestSnoc(p.kept, t.entry, xs, |p.kept|, n - 1);
        assert ks[|ks| - 1] == t.entry;
      } else {
        assert SubForest(p.kept, xs, |p.kept|, n);
      }
    }
  }

  // ---------------------------------------------------------------------
  // The abstract heuristic and the stage.

  /** A leading bare string followed by a section becomes the abstract. */
  function AbstractFixed(xs: seq<Entry>): (r: seq<Entry>)
    ensures |r| == |xs| && (xs != [] ==> r[1..] == xs[1..])
  {
    if |xs| > 1 && xs[0].Text? && xs[1].Sec? then
      xs[0 := Sec("section_abstract_heuristics", "Abstract", Items([xs[0]]))]
    else xs
  }

  /** The heuristic fires exactly on a bare string followed by a section,
      and otherwise changes nothing. */
  lemma AbstractFixedCases(xs: seq<Entry>)
    ensures |xs| > 1 && xs[0].Text? && xs[1].Sec? ==> AbstractFixed(xs)[0] == Sec("section_abstract_heuristics", "Abstract", Items([xs[0]]))
    ensures !(|xs| > 1 && xs[0].Text? && xs[1].Sec?) ==> AbstractFixed(xs) == xs
  {
  }

  /** Wrapping the string keeps every string in place. */
  lemma AbstractFixedKeepsTexts(xs: seq<Entry>)
    ensures Texts(AbstractFixed(xs)) == Texts(xs)
  {
    var r := AbstractFixed(xs);
    if r != xs {
      assert EntryTexts(r[0]) == Texts([xs[0]]) == EntryTexts(xs[0]) by {
        TextsSingle(xs[0]);
      }
      TextsPointwise(r, xs);
    }
  }

  /** Applying the heuristic twice is applying it once: the wrapped entry
      is no longer a bare string. */
  lemma AbstractFixedIdempotent(xs: seq<Entry>)
    ensures AbstractFixed(AbstractFixed(xs)) == AbstractFixed(xs)
  {
  }

  /** The heuristic never produces an empty section. */
  lemma AbstractFixedNonEmpty(xs: seq<Entry>)
    requires forall k :: 0 <= k < |xs| ==> NonEmpty(xs[k])
    ensures forall k :: 0 <= k < |AbstractFixed(xs)| ==> NonEmpty(AbstractFixed(xs)[k])
  {
  }

  /** `SpringerNatureCollect` on the extracted paragraphs: a fresh flag,
      `trim_sections` on the whole list, then the heuristic overwriting the
      first entry. */
  method Collect(raw: seq<Entry>) returns (sections: seq<Entry>)
    ensures sections == AbstractFixed(TrimmedItems(raw, |raw|, false).kept)
    ensures Texts(sections) == Before(Events(raw, |raw|))
    ensures forall k :: 0 <= k < |sections| ==> NonEmpty(sections[k])
  {
    var trimmer := new SectionTrimmer();
    var keep, trimmed := trimmer.TrimList(raw);
    sections := trimmed;
    if |sections| > 1 && sections[0].Text? && sections[1].Sec? {
      sections := sections[0 := Sec("section_abstract_heuristics", "Abstract", Items([sections[0]]))];
    }
    ItemsTrimTexts(raw, |raw|, false);
    ItemsTrimShape(raw, |raw|, false);
    AbstractFixedKeepsTexts(trimmed);
    AbstractFixedNonEmpty(trimmed);
  }

  /** `SpringerNatureExtractArticleBody`: the element marked as the article
      body, else the `article` element, else the error. */
  function ArticleBody<T>(marked: Option<T>, article: Option<T>): (r: Result<T, string>)
    ensures r.Success? <==> marked.Some? || article.Some?
    ensures marked.Some? ==> r == Success(marked.value)
    ensures marked.None? && article.Some? ==> r == Success(article.value)
  {
    match marked
    case Some(body) => Success(body)
    case None =>
      match article
      case Some(body) => Success(body)
      case None => Failure("Cannot find article body. You should inspect this HTML file carefully.")
  }
}
