/** The section hierarchy every publisher parser produces: an ordered list
    whose entries are bare strings or section records
    `{type, name, content}`, where `content` is a string or again such a
    list. A missing or `None` name is modelled as the empty name, which is
    how `unwind_sections` reads it; the other walks raise on such a name,
    which this model does not capture. */
module Sections {

  datatype Entry =
    | Text(text: string)
    | Sec(kind: string, name: string, content: Content)

  datatype Content =
    | Str(s: string)
    | Items(items: seq<Entry>)

  /** Every entry is a section: `all(type(s) == dict for s in content)`,
      true of the empty list. */
  predicate AllSections(xs: seq<Entry>)
  {
    forall x <- xs :: x.Sec?
  }

  /** A size that strictly shrinks from a section to each of its entries;
      it bounds the recursion of the methods that walk the tree. */
  function Size(e: Entry): nat
    decreases e
  {
    match e
    case Text(_) => 1
    case Sec(_, _, c) => 1 + ContentSize(c)
  }

  function ContentSize(c: Content): nat
    decreases c
  {
    match c
    case Str(_) => 1
    case Items(xs) => SeqSize(xs)
  }

  function SeqSize(xs: seq<Entry>): nat
    decreases xs
  {
    if xs == [] then 0 else SeqSize(xs[..|xs| - 1]) + Size(xs[|xs| - 1])
  }

  /** Every entry of a list is no larger than the list. */
  lemma {:induction false} EntryWithinSeq(xs: seq<Entry>, k: nat)
    requires k < |xs|
    ensures Size(xs[k]) <= SeqSize(xs)
  {
    if k < |xs| - 1 {
      EntryWithinSeq(xs[..|xs| - 1], k);
    }
  }

  /** The text leaves of an entry, in document order. */
  function EntryTexts(e: Entry): seq<string>
    decreases e
  {
    match e
    case Text(s) => [s]
    case Sec(_, _, Str(s)) => [s]
    case Sec(_, _, Items(xs)) => Texts(xs)
  }

  /** The text leaves of a list, depth first, in document order. */
  function Texts(xs: seq<Entry>): seq<string>
    decreases xs
  {
    if xs == [] then [] else Texts(xs[..|xs| - 1]) + EntryTexts(xs[|xs| - 1])
  }

  lemma {:induction false} TextsAppend(a: seq<Entry>, b: seq<Entry>)
    ensures Texts(a + b) == Texts(a) + Texts(b)
    decreases |b|
  {
    if b == [] {
      assert a + b == a;
    } else {
      var b' := b[..|b| - 1];
      assert (a + b)[..|a + b| - 1] == a + b';
      TextsAppend(a, b');
    }
  }

  lemma TextsSingle(e: Entry)
    ensures Texts([e]) == EntryTexts(e)
  {
    assert [e][..0] == [];
  }

  /** Lists whose entries hold the same texts, position by position, hold
      the same texts. */
  lemma {:induction false} TextsPointwise(xs: seq<Entry>, ys: seq<Entry>)
    requires |xs| == |ys|
    requires forall k :: 0 <= k < |xs| ==> EntryTexts(xs[k]) == EntryTexts(ys[k])
    ensures Texts(xs) == Texts(ys)
  {
    if xs != [] {
      TextsPointwise(xs[..|xs| - 1], ys[..|ys| - 1]);
    }
  }
}
