# LimeSoup publisher parsers, modelled in Dafny

LimeSoup turns a publisher's HTML or XML article into one record. The record holds a DOI, some metadata and a nested list of
sections. A section is a dictionary (`type`, `name`, `content`), and its `content` is a string or a list of strings and
sections. Each publisher has a "soup": a chain of ingredients that rewrite the raw text, clean the parsed tree and collect
the record. This project models the logic that those ingredients add on top of the HTML/XML parser:

* `unwind_sections` (module `Unwind`). It flattens a parsed section tree into one paragraph record per text. Each record
  carries the chain of ancestor names, the `$$`-joined path, the text, its position in its list (`order`) and its running
  number (`order_root`). The method threads the collected list, the ancestors and the counter through a recursive walk,
  as the Python does. It is proved against a leaf-listing specification.
* The AIP soup (module `Aip`). It covers:
  * whitespace trimming;
  * the DOI search over the citation strings, with its `ValueError`;
  * the check for the article body;
  * the classification of heading ids used to rename headings;
  * the collection of abstract and body sections, with untitled strings wrapped as sections;
  * the recursive removal of enumerators (`III. `, `2.  `) from section names.
* The Springer Nature soup (modules `SpringerText` and `Springer`). It covers:
  * the raw HTML rewrites: removing bracketed reference anchors, replacing non-breaking and thin spaces, and marking
    exponents with `^`;
  * DOI and title normalisation with fallback between meta tags;
  * the stateful `trim_sections` pass, which drops every section from the first "ending" section name onwards
    (acknowledgements, references, author information and so on);
  * the abstract heuristic;
  * the check for the article body.
* The IOP soup (module `Iop`). It covers:
  * the `>/` rewrite;
  * removing inline citation groups;
  * the order of the stages;
  * the record built by `IOPCollect`.

Modules `Basics`, `Strings`, `Sections` and `Rewrites` hold what these share:
* `Option` and `Result`;
* string helpers and whitespace runs;
* the section tree (`Entry` / `Content`) and the texts of a tree in document order;
* a generic left-to-right "delete every match of a pattern" rewrite, which models `re.sub(pattern, '', s)`.

Regular expressions are modelled by what they match. A lazy `.*?` stops at the first possible closer and never crosses
a newline. A `re.match` whose pattern starts with `.*?` can only match a keyword that starts before the first newline.
`\s*` between words consumes the whole run of white space. `str.replace` rewrites non-overlapping occurrences from
left to right.

Where a dictionary or list is changed in place (`section['content'] = [...]`, `sec['name'] = ...`,
`trimmed_sections[0] = ...`), the model computes the new value, and a lemma shows that the result is the same as with
the old value where the source relies on that.

## Model

| member | source | states |
|---|---|---|
| Unwind.UnwindSections | LimeSoup/parser/test/test_springernature_parsing.py:21-61 | the recursive walk, which threads the collected list, the ancestors and the counter, gives the state that the `Unwound` specification describes |
| Unwind.Unwound | LimeSoup/parser/test/test_springernature_parsing.py:21-61 | the value of one call: the loop over the entries, then the ancestors cut to their parent (`ancestors[:-1]`, or `['_root']`); the record, order and ancestor facts about it are Unwind.VisitsReports and Unwind.EmitReports |
| Unwind.Visits | LimeSoup/parser/test/test_springernature_parsing.py:22-59 | the loop over `sections`, left to right, each entry seeing the walk its predecessors left; no contract of its own, its properties are Unwind.VisitsReports |
| Unwind.Visit | LimeSoup/parser/test/test_springernature_parsing.py:23-59 | one iteration: a string is treated as a one-item section, the path is the joined ancestors plus a truthy name, an all-sections content recurses with the split path, any other content goes through the inner loop; its properties are Unwind.VisitReports |
| Unwind.Emit | LimeSoup/parser/test/test_springernature_parsing.py:43-59 | the inner loop over a mixed content list: a string adds a record with `order` j and the running `order_root`, a section is unwound on its own and its returned ancestors replace the caller's; its properties are Unwind.EmitReports, Unwind.EmitPlaced and Unwind.EmitAncestors |
| Unwind.EmitItems | LimeSoup/parser/test/test_springernature_parsing.py:43-59 | the nested `for j, subsection in enumerate(...)` loop leaves the collected list, ancestors and counter that the inner-loop specification `Emit` gives |
| Unwind.Normalized | LimeSoup/parser/test/test_springernature_parsing.py:27-28 | the in-place rewrite of string content to a one-item list, at every depth; it keeps the length of every list, and Unwind.UnwoundNormalized shows it does not change the unwound records |
| Unwind.VisitsReports | LimeSoup/parser/test/test_springernature_parsing.py:22-61 | unwinding a section list appends exactly one record per text leaf, in document order, with consecutive `order_root` values from the incoming counter; when every section name is non-empty and has no `$`, each record's ancestors are the current ancestors followed by the leaf's chain of section names, and its path is their `$$` join |
| Unwind.VisitReports | LimeSoup/parser/test/test_springernature_parsing.py:23-59 | the same for one entry: a bare string becomes a one-paragraph section, and a named section adds its name to the path |
| Unwind.EmitReports | LimeSoup/parser/test/test_springernature_parsing.py:43-59 | in a mixed content list each string gets a record whose `order` is its index in that list; nested sections are unwound in place between them |
| Unwind.EmitPlaced | LimeSoup/parser/test/test_springernature_parsing.py:30-33 | each record's `ancestors` is `path.split('$$')` of the enclosing path, and `path` is the join of the ancestors and the section names |
| Unwind.EmitAncestors | LimeSoup/parser/test/test_springernature_parsing.py:54-60 | after a content list, the returned ancestors are the enclosing path with its last component dropped (or `['_root']`) |
| Unwind.UnnamedSectionDropsAncestor | LimeSoup/parser/test/test_springernature_parsing.py:30-41 | a section with an empty name adds nothing to the path, yet the walk still drops the last ancestor on return |
| Unwind.SplitJoinClean | LimeSoup/parser/test/test_springernature_parsing.py:31-39 | splitting the `$$`-joined path gives back the ancestor list when the list is non-empty and no name in it contains a `$`; empty names are allowed |
| Unwind.DollarNameBreaksSplit | LimeSoup/parser/test/test_springernature_parsing.py:31-39 | one `$` at the end of a name already breaks the round trip: `["a$", "b"]` joins to `a$$$b`, which splits into `["a", "$b"]` |
| Unwind.NamedPath | LimeSoup/parser/test/test_springernature_parsing.py:30-31 | a named section's path is the join of the ancestors extended by its name, and its parent is the ancestor list |
| Unwind.ContentLeavesAllSections | LimeSoup/parser/test/test_springernature_parsing.py:35-41 | when every content item is a section, emitting item by item lists the same leaves as recursing into the list |
| Unwind.LeavesTexts | LimeSoup/parser/test/test_springernature_parsing.py:43-52 | the texts of the records are the texts of the tree in document order: nothing is lost, duplicated or reordered |
| Unwind.NormalizedHasNoStringContent | LimeSoup/parser/test/test_springernature_parsing.py:27-28 | after the in-place rewrite, no section has a bare string as its content |
| Unwind.NormalizedSections | LimeSoup/parser/test/test_springernature_parsing.py:27-35 | the rewrite does not change whether a list holds only sections |
| Unwind.UnwoundNormalized | LimeSoup/parser/test/test_springernature_parsing.py:27-28 | unwinding the rewritten tree gives the same records, ancestors and counter as unwinding the original |
| Unwind.UnwindPaper | LimeSoup/parser/test/test_springernature_parsing.py:71-75 | from the root call, `total_paras` equals the number of records and of text leaves; record k describes leaf k with `order_root` k; the texts are those of the paper in order; when every section name is non-empty and has no `$`, the ancestors start at `_root` |
| Aip.RemoveIndex | LimeSoup/AIPSoup.py:251-254 | the new name is a suffix of the old one: only a leading prefix is deleted |
| Aip.RemoveIndexStripsEnumerator | LimeSoup/AIPSoup.py:251-254 | a leading enumerator followed by a non-space is removed entirely; an enumerator is a run of `[A-z0-9]` characters (which takes in the six ASCII signs between `Z` and `a`), then `.` or a space, then at least one space |
| Aip.RemoveIndexKeepsPlainName | LimeSoup/AIPSoup.py:251-254 | a name with no enumerator prefix is unchanged |
| Aip.RemoveIndexCases | LimeSoup/AIPSoup.py:251-254 | either the name is unchanged, or the removed prefix is an enumerator followed by its whole space run |
| Aip.RemoveIndexStripsRoman | LimeSoup/AIPSoup.py:251-254 | `III. Results` becomes `Results` |
| Aip.RemoveIndexStripsLetter | LimeSoup/AIPSoup.py:251-254 | `A.   Intro` becomes `Intro`: the whole run of spaces after the separator goes |
| Aip.RemoveIndexStripsDoubleSpace | LimeSoup/AIPSoup.py:251-254 | `3  Discussion` becomes `Discussion`, because the `\s` separator may itself be a space |
| Aip.RemoveIndexStripsUnderscore | LimeSoup/AIPSoup.py:251-254 | `_. Notes` becomes `Notes`, because the class `[A-z]` takes in the signs between `Z` and `a` |
| Aip.RemoveIndexKeepsSingleSeparator | LimeSoup/AIPSoup.py:251-254 | an index followed by one separator and then a non-space is kept, because the pattern needs a space after the separator |
| Aip.RemoveIndexKeepsBareIndex | LimeSoup/AIPSoup.py:251-254 | a name made only of index characters is kept |
| Aip.AbstractNameKept | LimeSoup/AIPSoup.py:251-254 | `Abstract` is kept |
| Aip.RemoveIndexKeepsDottedNumber | LimeSoup/AIPSoup.py:251-254 | `1.2. Methods` is kept |
| Aip.RemoveIndexKeepsSingleSpace | LimeSoup/AIPSoup.py:251-254 | `3 Discussion` is kept, because the pattern needs at least two separator characters |
| Aip.RemoveIndexNotIdempotent | LimeSoup/AIPSoup.py:251-254 | one pass strips only one enumerator: `A. B. Intro` becomes `B. Intro` |
| Aip.IndexesRemoved | LimeSoup/AIPSoup.py:252-255 | the tree after `remove_indexes`: every section name at every depth through `RemoveIndex`, everything else as it was; it keeps the length of every list, and its properties are Aip.IndexesRemovedAt, Aip.RemoveIndexesRenames, Aip.RemoveIndexesChangesOnlyNames and Aip.RemoveIndexesKeepsTexts |
| Aip.IndexesRemovedAt | LimeSoup/AIPSoup.py:252-255 | the pass works entry by entry and keeps the list's length |
| Aip.RemoveIndexes | LimeSoup/AIPSoup.py:246-257 | the recursive loop over the sections computes the renamed tree |
| Aip.RemoveIndexesChangesOnlyNames | LimeSoup/AIPSoup.py:252-255 | with the names blanked out, the tree is the same before and after |
| Aip.RemoveIndexesRenames | LimeSoup/AIPSoup.py:252-255 | every section name in the tree, in document order, is replaced by its index-free form |
| Aip.RemoveIndexesKeepsTexts | LimeSoup/AIPSoup.py:252-255 | the texts of the tree are unchanged |
| Aip.Wrapped | LimeSoup/AIPSoup.py:239-244 | a top-level entry becomes a section and keeps its texts |
| Aip.WrapAll | LimeSoup/AIPSoup.py:237-244 | every top-level entry as the wrapping loop leaves it, with the length kept; its properties are Aip.WrapAllShape |
| Aip.WrapAllShape | LimeSoup/AIPSoup.py:237-244 | after wrapping, every top-level entry is a section, existing sections are untouched and the texts are unchanged |
| Aip.WrapUntitled | LimeSoup/AIPSoup.py:237-244 | the loop over `data` computes the wrapped list |
| Aip.Collect | LimeSoup/AIPSoup.py:210-257 | the ingredient builds the optional abstract, appends the body, wraps the untitled entries and removes indexes |
| Aip.Collected | LimeSoup/AIPSoup.py:210-257 | the `Sections` list: the optional abstract section, then the body items, wrapped, with indexes removed; its properties are Aip.CollectedAbstract, Aip.CollectedBody and Aip.CollectedTexts |
| Aip.CollectedAbstract | LimeSoup/AIPSoup.py:210-223 | with an abstract, the first section is `abstract`/`Abstract` and holds the abstract's items with their indexes removed |
| Aip.CollectedBody | LimeSoup/AIPSoup.py:229-244 | the body's items follow, each wrapped and with indexes removed, and there is one section per item |
| Aip.CollectedTexts | LimeSoup/AIPSoup.py:236-257 | the result is all sections, and its texts are the abstract's texts followed by the body's |
| Aip.CleanArticleBody | LimeSoup/AIPSoup.py:112-114 | the ingredient fails with `Cannot find article body` exactly when there is no `fulltext` tag |
| Aip.IsSecondaryId | LimeSoup/AIPSoup.py:182 | `re.search(r's\d[A-Z]$', id)` succeeds: some position starts `s`, a digit and a capital that end the id, or end it before one final newline; characterised by Aip.SecondaryIdEnding |
| Aip.IsTertiaryId | LimeSoup/AIPSoup.py:190 | `re.search(r's\d[A-Z]\d$', id)` succeeds, in the same terms; characterised by Aip.TertiaryIdEnding |
| Aip.SecondaryIdEnding | LimeSoup/AIPSoup.py:182 | an id matches `s\d[A-Z]$` exactly when it ends, before an optional final newline, in `s`, a digit and a capital |
| Aip.TertiaryIdEnding | LimeSoup/AIPSoup.py:190 | an id matches `s\d[A-Z]\d$` exactly when it ends in `s`, a digit, a capital and a digit |
| Aip.NoIdIsBoth | LimeSoup/AIPSoup.py:182-190 | no id is both secondary and tertiary, so the two renamings never compete for one section |
| Aip.TrimStart | LimeSoup/AIPSoup.py:58 | the result is a suffix, starts with a non-space, and everything removed is white space |
| Aip.TrimEnd | LimeSoup/AIPSoup.py:58 | the result is a prefix, ends with a non-space, and everything removed is white space |
| Aip.Trim | LimeSoup/AIPSoup.py:58 | the result is a slice of the input that neither starts nor ends with white space, and only white space is removed around it |
| Aip.TrimIdempotent | LimeSoup/AIPSoup.py:58 | trimming twice is trimming once |
| Aip.TrimClean | LimeSoup/AIPSoup.py:58 | a string without surrounding white space is unchanged |
| Aip.TrimPadded | LimeSoup/AIPSoup.py:58 | trimming removes exactly the white-space padding added on either side |
| Aip.FirstDoiStart | LimeSoup/AIPSoup.py:74 | the search stops at the leftmost position where the look-behind `https://doi.org/` holds (its unescaped dot takes any character but a newline) and a non-newline character follows |
| Aip.LineEnd | LimeSoup/AIPSoup.py:74 | `.+` ends at the first newline or at the end of the string |
| Aip.DoiIn | LimeSoup/AIPSoup.py:74-77 | the search in one string: `None` when the look-behind never holds, else the trimmed rest of the line after the first place it holds; characterised by Aip.DoiInFound and Aip.DoiAfterMarker |
| Aip.DoiInFound | LimeSoup/AIPSoup.py:74 | a DOI is found exactly when the lookbehind can match, and the match never contains a newline |
| Aip.DoiAfterMarker | LimeSoup/AIPSoup.py:74-77 | on `https://doi.org/` followed by a trimmed one-line DOI, the search returns that DOI |
| Aip.FirstDoi | LimeSoup/AIPSoup.py:73-78 | the DOI of the first string in which the search finds one; characterised by Aip.FirstSomeIsFirst, and computed by Aip.ScanDoi |
| Aip.FirstSomeIsFirst | LimeSoup/AIPSoup.py:73-78 | the loop's result is none exactly when no string has a DOI; otherwise it comes from the first string that has one, and the strings before it have none |
| Aip.ScanDoi | LimeSoup/AIPSoup.py:73-78 | the loop with `break` returns the first string's trimmed DOI |
| Aip.CollectMetadata | LimeSoup/AIPSoup.py:62-91 | an empty string list raises StopIteration; no DOI after the journal raises `Cannot find doi.`; otherwise the record holds the DOI, the trimmed title, the trimmed journal and the keywords |
| SpringerText.AnchorClose | LimeSoup/SpringerNatureSoup.py:27 | the lazy `.*?` stops at the first `/a>]` or `/a>)` that no newline precedes, and when there is none, every closer has a newline before it |
| SpringerText.AnchorSpan | LimeSoup/SpringerNatureSoup.py:26-30 | a match at a position is an anchor group: `[`, the anchor opening, no newline, and the first closer at its end |
| SpringerText.RemoveAnchorGroups | LimeSoup/SpringerNatureSoup.py:26-30 | the substitution: a left-to-right deletion of every anchor group; characterised by SpringerText.AnchorGroupsDeleted and SpringerText.AnchorGroupsNeedOpening |
| SpringerText.AnchorGroupsDeleted | LimeSoup/SpringerNatureSoup.py:26-30 | the input splits into kept characters and cut groups; every cut piece is an anchor group, no kept character starts one, and the result is the kept characters |
| SpringerText.AnchorGroupsNeedOpening | LimeSoup/SpringerNatureSoup.py:26-30 | HTML without the anchor opening is unchanged |
| SpringerText.ReplaceChar | LimeSoup/SpringerNatureSoup.py:33-34 | the length is kept, the replaced character no longer occurs, and every other character is kept in place |
| SpringerText.ReplaceCharKeepsText | LimeSoup/SpringerNatureSoup.py:33-34 | replacing a white-space character by a space keeps the non-space text |
| SpringerText.ReplaceSpecialSpaces | LimeSoup/SpringerNatureSoup.py:33-34 | no non-breaking or thin space is left, the length is kept and the non-space text is unchanged |
| SpringerText.InsertCarets | LimeSoup/SpringerNatureSoup.py:37 | the left-to-right substitution that writes `<sup>^` before each class character directly after `<sup>`; characterised by SpringerText.InsertCaretsLeavesNoSite, InsertCaretsWithoutSites, InsertCaretsIdempotent and InsertCaretsOnlyAddsCarets |
| SpringerText.InsertCaretsLeavesNoSite | LimeSoup/SpringerNatureSoup.py:37 | after the rewrite, no `<sup>` is directly followed by a digit, `+`, `\|`, `[` or a minus sign |
| SpringerText.InsertCaretsWithoutSites | LimeSoup/SpringerNatureSoup.py:37 | HTML without such a site is unchanged |
| SpringerText.InsertCaretsIdempotent | LimeSoup/SpringerNatureSoup.py:37 | running the ingredient twice inserts no second caret |
| SpringerText.InsertCaretsOnlyAddsCarets | LimeSoup/SpringerNatureSoup.py:37 | with the carets deleted, the output equals the input with its carets deleted |
| SpringerText.PrepareHtml | LimeSoup/SpringerNatureSoup.py:26-37 | the three rewrites, in the source's order, leave no caret site |
| SpringerText.FirstPresent | LimeSoup/SpringerNatureSoup.py:96-98 | the preferred meta value is used when present, else the fallback, and there is none only when both are missing |
| SpringerText.StripDoiPrefix | LimeSoup/SpringerNatureSoup.py:100 | `re.sub(r'^doi:\s*', '', doi)`: a leading `doi:` and the white-space run after it go, anything else is unchanged; used by SpringerText.NormalizeDoiLabelled and NormalizeDoiUnlabelled |
| SpringerText.NormalizeDoi | LimeSoup/SpringerNatureSoup.py:99-101 | a normalised DOI contains no white space |
| SpringerText.NormalizeDoiLabelled | LimeSoup/SpringerNatureSoup.py:100-101 | `doi:` and the spaces after it are stripped, then all white space is removed |
| SpringerText.NormalizeDoiUnlabelled | LimeSoup/SpringerNatureSoup.py:100-101 | without the `doi:` label only the white space is removed |
| SpringerText.RecordDoi | LimeSoup/SpringerNatureSoup.py:96-101 | the DOI is missing exactly when both meta tags are missing; `citation_doi` wins over `prism.doi`, and the chosen value is normalised, so it has no white space |
| SpringerText.CollapseSpaces | LimeSoup/SpringerNatureSoup.py:109 | `re.sub(r'\s+', ' ', title)`: each maximal white-space run becomes one space; characterised by SpringerText.CollapseSpacesGap, CollapseSpacesAppend, CollapseSpacesSingleSpaced and CollapseSpacesKeepsText |
| SpringerText.CollapseSpacesSingleSpaced | LimeSoup/SpringerNatureSoup.py:109 | after `\s+` becomes one space, every white-space run is a single plain space |
| SpringerText.CollapseSpacesKeepsSingleSpaced | LimeSoup/SpringerNatureSoup.py:109 | a single-spaced title is unchanged |
| SpringerText.CollapseSpacesIdempotent | LimeSoup/SpringerNatureSoup.py:109 | collapsing twice is collapsing once |
| SpringerText.CollapseSpacesKeepsText | LimeSoup/SpringerNatureSoup.py:109 | the non-space text of the title is unchanged |
| SpringerText.RecordTitle | LimeSoup/SpringerNatureSoup.py:105-109 | the title is missing exactly when both meta tags are missing; `citation_title` wins over `twitter:title`, and the chosen value has every white-space run collapsed, so it is single-spaced |
| SpringerText.CollapseSpacesGap | LimeSoup/SpringerNatureSoup.py:109 | a white-space run of any length between two words becomes exactly one space |
| SpringerText.CollapseSpacesAppend | LimeSoup/SpringerNatureSoup.py:109 | a string that does not end in white space collapses independently of what follows it |
| Springer.AnyRuleMatchesSome | LimeSoup/SpringerNatureSoup.py:185-189 | the rule loop fires exactly when some rule in the list matches the name |
| Springer.IsEndingName | LimeSoup/SpringerNatureSoup.py:167-189 | some rule of `ending_sections` matches the name with `re.match`, IGNORECASE: a spelling of the rule starts before the first newline; characterised by Springer.AnyRuleMatchesSome and the ending-name lemmas below |
| Springer.AcknowledgementsEnds | LimeSoup/SpringerNatureSoup.py:168 | `Acknowledgements` is an ending name, through the `acknowledge?ment` rule |
| Springer.ReferencesEnds | LimeSoup/SpringerNatureSoup.py:169 | `References` is an ending name, through the `reference` rule |
| Springer.AuthorInformationEnds | LimeSoup/SpringerNatureSoup.py:170 | `Author\ninformation` is an ending name, because `\s*` crosses the newline between the words |
| Springer.EndingPhrasesAreLong | LimeSoup/SpringerNatureSoup.py:167-174 | every ending phrase has at least 9 letters |
| Springer.EndingPhrasesStartWithLetters | LimeSoup/SpringerNatureSoup.py:167-174 | every ending phrase is non-empty and starts with a non-empty word |
| Springer.ShortNamesNeverEnd | LimeSoup/SpringerNatureSoup.py:167-174 | a name shorter than 9 characters never ends the article |
| Springer.NewlineFirstNeverEnds | LimeSoup/SpringerNatureSoup.py:167-174 | a name that starts with a newline never matches, because `.*?` does not cross it |
| Springer.EndingNameAfterText | LimeSoup/SpringerNatureSoup.py:167-174 | putting newline-free text in front of an ending name keeps it an ending name |
| Springer.EndingNameBeforeText | LimeSoup/SpringerNatureSoup.py:167-174 | appending text to an ending name keeps it an ending name |
| Springer.TrimmedEntry | LimeSoup/SpringerNatureSoup.py:184-204 | one call of `trim_sections` on an entry from a given flag: the name check raises the flag first, a string or string content is kept unless the flag is up, and a list is kept when something in it was kept; Springer.SectionTrimmer.TrimEntry is proved equal to it |
| Springer.TrimmedItems | LimeSoup/SpringerNatureSoup.py:195-202 | the loop over the first `n` items, keeping those reported as included, with the flag threaded through; Springer.SectionTrimmer.TrimList is proved equal to it, and Springer.ItemsTrimFlag, ItemsTrimTexts and ItemsTrimShape characterise it |
| Springer.SectionTrimmer.CheckName | LimeSoup/SpringerNatureSoup.py:184-189 | `should_trim` becomes set exactly when it was set or the name matches an ending rule, and it is never reset |
| Springer.SectionTrimmer.TrimEntry | LimeSoup/SpringerNatureSoup.py:184-204 | one call on a section or a string gives the include flag, the new entry and the new `should_trim` that the trimming specification gives |
| Springer.SectionTrimmer.TrimList | LimeSoup/SpringerNatureSoup.py:195-202 | the loop keeps the included items in order, and the list is included exactly when something was kept |
| Springer.ItemsTrimFlag | LimeSoup/SpringerNatureSoup.py:180-204 | after trimming, `should_trim` is set exactly when it was set before or some section visited in document order has an ending name |
| Springer.ItemsTrimRaised | LimeSoup/SpringerNatureSoup.py:186-204 | once `should_trim` is set, nothing more is kept |
| Springer.ItemsTrimTexts | LimeSoup/SpringerNatureSoup.py:180-204 | the kept texts are exactly the texts that precede, in document order, the first section with an ending name |
| Springer.ItemsTrimShape | LimeSoup/SpringerNatureSoup.py:195-202 | the kept tree is an order-preserving pruning of the input in which no kept section is empty |
| Springer.AbstractFixed | LimeSoup/SpringerNatureSoup.py:218-225 | the heuristic keeps the length and touches only the first item |
| Springer.AbstractFixedCases | LimeSoup/SpringerNatureSoup.py:218-225 | a leading text followed by a section is replaced by the section of type `section_abstract_heuristics`, name `Abstract` and content the list holding that text; any other list is unchanged |
| Springer.AbstractFixedKeepsTexts | LimeSoup/SpringerNatureSoup.py:218-225 | the heuristic keeps the texts |
| Springer.AbstractFixedIdempotent | LimeSoup/SpringerNatureSoup.py:218-225 | the heuristic applied twice changes nothing more |
| Springer.AbstractFixedNonEmpty | LimeSoup/SpringerNatureSoup.py:218-225 | it keeps every top-level section non-empty |
| Springer.Collect | LimeSoup/SpringerNatureSoup.py:176-229 | `obj['Sections']` is the trimmed, abstract-fixed tree: its texts are those before the first ending section, and no section in it is empty |
| Springer.ArticleBody | LimeSoup/SpringerNatureSoup.py:137-155 | the ingredient succeeds exactly when the marked body or an `article` tag exists, and it prefers the marked body |
| Iop.ReplaceSlash | LimeSoup/IOPSoup.py:71 | `str.replace('>/', '>')`: a left-to-right pass over non-overlapping occurrences; characterised by the four lemmas below |
| Iop.ReplaceSlashWithout | LimeSoup/IOPSoup.py:71 | XML without `>/` is unchanged |
| Iop.ReplaceSlashShortens | LimeSoup/IOPSoup.py:71 | XML with `>/` becomes shorter |
| Iop.ReplaceSlashFixedIff | LimeSoup/IOPSoup.py:71 | the rewrite leaves the XML unchanged exactly when `>/` does not occur |
| Iop.ReplaceSlashOnlyDropsSlashes | LimeSoup/IOPSoup.py:71 | only slashes are deleted: with slashes removed, input and output agree |
| Iop.ReplaceSlashOnePass | LimeSoup/IOPSoup.py:71 | the replacement is one non-overlapping pass: `>//` becomes `>/`, not `>` |
| Iop.CloserFrom | LimeSoup/IOPSoup.py:25 | the lazy `.*?` stops at the first `]` or `)` that no newline precedes, and when there is none, every closer has a newline before it |
| Iop.CitationSpan | LimeSoup/IOPSoup.py:25 | every match is a citation group: an optional `[`, the `xref` marker, then text up to and including the first closer on the same line |
| Iop.RemoveCitations | LimeSoup/IOPSoup.py:25 | the substitution: a left-to-right deletion of every citation group; characterised by Iop.CitationsDeleted, CitationsNeedMarker and UnclosedCitationKept |
| Iop.CitationsDeleted | LimeSoup/IOPSoup.py:25 | the XML splits into kept characters and cut citation groups; no kept character starts a group, and the result is the kept characters |
| Iop.CitationsNeedMarker | LimeSoup/IOPSoup.py:25 | XML without the `xref` marker is unchanged |
| Iop.UnclosedCitationKept | LimeSoup/IOPSoup.py:25 | a marker with no closer after it is not removed here; it is left to the tag removal |
| Iop.CollectRecord | LimeSoup/IOPSoup.py:96-108 | the record has no keywords, holds the sections, and its DOI is empty without an `article-id`, or is the single id |
| Iop.CollectRecordConcatenates | LimeSoup/IOPSoup.py:105 | several DOI ids are concatenated without a separator |
| Iop.RunStages | LimeSoup/IOPSoup.py:112-117 | the soup's chain: each stage's output is the next one's input; used by Iop.Parse and Iop.ParseOrder |
| Iop.Parse | LimeSoup/IOPSoup.py:112-117 | an IOP record never has keywords |
| Iop.ParseOrder | LimeSoup/IOPSoup.py:112-117 | the soup runs the `>/` rewrite, then citation removal and tag removal, then section tag creation and renaming, then collection, in that order |

## Left out

- Reading and writing MongoDB, printing and exception reporting in the batch scripts: these are I/O. `unwind_sections` is modelled on the sections of one parsed paper.
- The HTML/XML parser itself (BeautifulSoup, `ParserPaper`: `extract_paragraphs_recursive`, `remove_tags`, `create_tag_sections`, `change_name_tag_sections`, `get`, `get_keywords`, `get_first_title`, `raw_xml` re-serialisation, and `soup.find`) is not part of this model. Its results are parameters of the model: found tags are `Option` values, extracted sections are `Entry` trees, and the IOP stages are opaque functions in `Iop.ParserOps`.
- `Soup` and `RuleIngredient` are not part of this model: the chaining of ingredients is written out as function composition.
- The removal lists in the RemoveTrash ingredients (AIP, Springer Nature, IOP) and the tag renamings they do: these act on the parse tree only. From the AIP heading renaming, only the id classification by the two regular expressions is modelled.
- The IOP RemoveTrash check after tag removal (IOPSoup.py:41-44) prints and then fails on an undefined name. That behaviour is an accident of the script and is not modelled. The same holds for the bare `except: pass` around `create_tag_sections`, which the opaque stage function absorbs.
- Springer Nature metadata other than DOI and title (journal, keywords, content type, validity) is not part of this model, because it is read straight from meta tags by the parser.
- The AIP metadata ingredient is modelled (`Aip.CollectMetadata`), although the soup does not currently run it (AIPSoup.py:266). Two failures of the source are not modelled: a `None` title makes `trim` raise a TypeError (AIPSoup.py:63), and a missing citation `div` makes `.strings` raise an AttributeError (AIPSoup.py:66). The model takes the title and the citation strings as already found.
- Regular-expression classes: `\s` is the set of characters for which Python's `str.isspace()` holds, but `\d` is an ASCII digit and IGNORECASE is ASCII case folding. Python's non-ASCII decimal digits, and case folds such as the Kelvin sign or the long s matching `k` and `s`, are not modelled.
- Dictionary and list mutation in place is modelled on values. In `unwind_sections` and `remove_indexes`, the model therefore does not show that the caller's tree is changed, nor any aliasing between lists.
- Unwind.UnwindSections: the mutable default argument `collected_content=[]` is not modelled; every call passes the list in explicitly, as the batch script does.
- Unwind.VisitsReports: the ancestor and path facts are proved only for trees in which every section name is non-empty and contains no `$`. A single `$` can already break the split of the joined path (Unwind.DollarNameBreaksSplit). Unnamed sections are covered separately, only by Unwind.UnnamedSectionDropsAncestor.
- Unwind.UnwindPaper: its ancestor fact has the same condition as Unwind.VisitsReports.
- Unwind.SplitJoinClean: the round trip is proved for non-empty ancestor lists whose names contain no `$`, which is narrower than "no name contains `$$`"; Unwind.DollarNameBreaksSplit shows that the wider statement is false.
- Aip.RemoveIndexes: a section without a `name` key makes `sec['name']` raise a KeyError in the source, and a `None` name makes `re.sub` raise a TypeError (AIPSoup.py:254); the model reads such a name as the empty name and leaves it empty.
- Springer.SectionTrimmer.CheckName: a section without a `name` key makes `sections['name']` raise a KeyError in the source, and a `None` name makes `rule.match` raise a TypeError (SpringerNatureSoup.py:187); the model reads such a name as the empty name, which no ending rule matches.
- Springer.ArticleBody: the removal of header, navigation, keyword and figure tags from a style-2 body is a parse-tree operation and is not part of this model.
