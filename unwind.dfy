/** `unwind_sections`, the path flattener that the RSC, Elsevier, AIP and
    Springer Nature batch scripts each carry a verbatim copy of. It walks a
    section hierarchy depth first and appends one paragraph record per text
    leaf to an accumulator, threading the accumulator, the ancestor list and
    a global counter through its recursion. */
module Unwind {
  import Basics
  import opened Strings
  import opened Sections

  /** The path separator. */
  const Sep := "$$"

  /** The first ancestor of every caller. */
  const Root := "_root"

  /** One flattened paragraph: `{ancestors, path, text, order, order_root}`. */
  datatype Paragraph = Paragraph(
    ancestors: seq<string>,
    path: string,
    text: string,
    order: int,
    orderRoot: int)

  /** What one call returns: `collected_content, ancestors, i`. */
  datatype Walk = Walk(collected: seq<Paragraph>, ancestors: seq<string>, counter: int)

  /** `'$$'.join(ancestors) + '$$' + name` for a non-empty name, else the
      parent's path. */
  function PathOf(ancestors: seq<string>, name: string): string
  {
    if name != "" then Join(ancestors, Sep) + Sep + name else Join(ancestors, Sep)
  }

  /** `ancestors[:-1] if len(ancestors) > 1 else ['_root']`. */
  function Parent(ancestors: seq<string>): seq<string>
  {
    if |ancestors| > 1 then ancestors[..|ancestors| - 1] else [Root]
  }

  function NameOf(e: Entry): string
  {
    if e.Sec? then e.name else ""
  }

  /** The content list the loop iterates over: a bare string stands for
      `{'content': [s]}`, and string content is read as a one-element list. */
  function ItemsOf(e: Entry): seq<Entry>
  {
    match e
    case Text(_) => [e]
    case Sec(_, _, Str(s)) => [Text(s)]
    case Sec(_, _, Items(xs)) => xs
  }

  /** The record for the string at index `j` of a content list. */
  function Emitted(w: Walk, path: string, text: string, j: int): Walk
  {
    Walk(w.collected + [Paragraph(Split(path, Sep), path, text, j, w.counter)],
         w.ancestors, w.counter + 1)
  }

  /** The value of one call `unwind_sections(sections, collected, ancestors, i)`. */
  function Unwound(sections: seq<Entry>, w: Walk): Walk
    decreases sections, 2
  {
    var r := Visits(sections, w);
    r.(ancestors := Parent(r.ancestors))
  }

  /** The state after the loop over `sections`, before the final trim of the
      ancestor list. */
  function Visits(sections: seq<Entry>, w: Walk): Walk
    decreases sections, 1
  {
    if sections == [] then w
    else Visit(sections[|sections| - 1], Visits(sections[..|sections| - 1], w))
  }

  /** One iteration of the loop over `sections`. The path is computed from
      the ancestors as they stand, which earlier siblings may have changed. */
  function Visit(e: Entry, w: Walk): Walk
    decreases e, 0
  {
    var path := PathOf(w.ancestors, NameOf(e));
    match e
    case Text(s) => Emitted(w, path, s, 0)
    case Sec(_, _, Str(s)) => Emitted(w, path, s, 0)
    case Sec(_, _, Items(xs)) =>
      if AllSections(xs) then Unwound(xs, w.(ancestors := Split(path, Sep)))
      else Emit(xs, |xs|, path, w)
  }

  /** The inner loop over the first `n` entries of a mixed content list:
      strings are emitted with their index, each section is unwound on its
      own and its returned ancestors replace the caller's. */
  function Emit(xs: seq<Entry>, n: nat, path: string, w: Walk): Walk
    requires n <= |xs|
    decreases xs, 3, n
  {
    if n == 0 then w
    else
      var w' := Emit(xs, n - 1, path, w);
      match xs[n - 1]
      case Text(s) => Emitted(w', path, s, n - 1)
      case Sec(_, _, _) =>
        var r := Visit(xs[n - 1], w'.(ancestors := Split(path, Sep)));
        r.(ancestors := Parent(r.ancestors))
  }

  lemma ItemsSmaller(e: Entry)
    requires e.Sec?
    ensures SeqSize(ItemsOf(e)) < Size(e)
  {
    if e.content.Str? {
      assert [Text(e.content.s)][..0] == [];
    }
  }

  lemma SingletonSize(x: Entry)
    ensures SeqSize([x]) == Size(x)
  {
    assert [x][..0] == [];
  }

  /** `unwind_sections` itself: a loop over the entries, a nested loop over
      mixed content (`EmitItems`), and recursion into nested sections. The
      accumulator is a parameter that callers pass fresh. */
  method UnwindSections(sections: seq<Entry>, collected: seq<Paragraph>, ancestors: seq<string>, i: int)
    returns (collected': seq<Paragraph>, ancestors': seq<string>, i': int)
    ensures Walk(collected', ancestors', i') == Unwound(sections, Walk(collected, ancestors, i))
    decreases SeqSize(sections), 1
  {
    ghost var start := Walk(collected, ancestors, i);
    collected', ancestors', i' := collected, ancestors, i;
    for n := 0 to |sections|
      invariant Walk(collected', ancestors', i') == Visits(sections[..n], start)
    {
      var section := sections[n];
      var items := ItemsOf(section);
      var path := PathOf(ancestors', NameOf(section));
      ghost var before := Walk(collected', ancestors', i');
      EntryWithinSeq(sections, n);
      VisitCases(section, before);
      if AllSections(items) {
        ItemsSmaller(section);
        collected', ancestors', i' := UnwindSections(items, collected', Split(path, Sep), i');
      } else {
        collected', ancestors', i' := EmitItems(section, path, collected', ancestors', i');
      }
      VisitsStep(sections, n, start);
    }
    assert sections[..|sections|] == sections;
    ancestors' := Parent(ancestors');
  }

  /** The nested loop of `unwind_sections` over the content list of one
      entry whose content mixes strings and sections. */
  method EmitItems(section: Entry, path: string, collected: seq<Paragraph>, ancestors: seq<string>, i: int)
    returns (collected': seq<Paragraph>, ancestors': seq<string>, i': int)
    ensures var items := ItemsOf(section);
            Walk(collected', ancestors', i') == Emit(items, |items|, path, Walk(collected, ancestors, i))
    decreases Size(section), 0
  {
    ghost var before := Walk(collected, ancestors, i);
    collected', ancestors', i' := collected, ancestors, i;
    var items := ItemsOf(section);
    for j := 0 to |items|
      invariant Walk(collected', ancestors', i') == Emit(items, j, path, before)
    {
      EmitStep(items, j, path, before);
      match items[j]
      case Text(s) =>
        collected' := collected' + [Paragraph(Split(path, Sep), path, s, j, i')];
        i' := i' + 1;
      case Sec(_, _, _) =>
        ItemsSmaller(section);
        EntryWithinSeq(items, j);
        SingletonSize(items[j]);
        collected', ancestors', i' := UnwindSections([items[j]], collected', Split(path, Sep), i');
    }
  }

  /** One iteration of the outer loop: the two ways a section is visited. */
  lemma VisitCases(e: Entry, w: Walk)
    ensures var items, path := ItemsOf(e), PathOf(w.ancestors, NameOf(e));
            Visit(e, w) == if AllSections(items) then Unwound(items, w.(ancestors := Split(path, Sep)))
                           else Emit(items, |items|, path, w)
  {
    var path := PathOf(w.ancestors, NameOf(e));
    match e
    case Text(s) =>
      assert [e][0] in [e];
      assert Emit([e], 0, path, w) == w;
    case Sec(_, _, Str(s)) =>
      assert [Text(s)][0] in [Text(s)];
      assert Emit([Text(s)], 0, path, w) == w;
    case Sec(_, _, Items(_)) =>
  }

  /** One iteration of the inner loop: a string is emitted, a section is
      unwound as a list of its own. */
  lemma EmitStep(items: seq<Entry>, j: nat, path: string, w: Walk)
    requires j < |items|
    ensures var v := Emit(items, j, path, w);
            Emit(items, j + 1, path, w)
            == match items[j]
               case Text(s) => Emitted(v, path, s, j)
               case Sec(_, _, _) => Unwound([items[j]], v.(ancestors := Split(path, Sep)))
  {
    var v := Emit(items, j, path, w);
    if items[j].Sec? {
      var x, v' := items[j], v.(ancestors := Split(path, Sep));
      assert [x][..0] == [];
      assert Visits([x], v') == Visit(x, v');
    }
  }

  /** One iteration of the outer loop extends the visited prefix. */
  lemma VisitsStep(sections: seq<Entry>, n: nat, w: Walk)
    requires n < |sections|
    ensures Visits(sections[..n + 1], w) == Visit(sections[n], Visits(sections[..n], w))
  {
    assert sections[..n + 1][..n] == sections[..n];
    assert sections[..n + 1][n] == sections[n];
  }


  // ---------------------------------------------------------------------
  // What the records should say, defined on the tree alone.

  /** A text leaf as the flattened output should report it: its text, its
      index in the content list that immediately holds it (0 for a bare
      top-level string and for string content), and the names of the named
      sections around it, outermost first. */
  datatype Leaf = Leaf(text: string, order: nat, chain: seq<string>)

  /** Puts a section's name in front of the chains of the leaves inside it. */
  function Under(name: string, leaves: seq<Leaf>): (r: seq<Leaf>)
    ensures |r| == |leaves|
  {
    seq(|leaves|, k requires 0 <= k < |leaves| =>
      leaves[k].(chain := (if name != "" then [name] else []) + leaves[k].chain))
  }

  function EntryLeaves(e: Entry): seq<Leaf>
    decreases e, 1
  {
    match e
    case Text(s) => [Leaf(s, 0, [])]
    case Sec(_, n, Str(s)) => Under(n, [Leaf(s, 0, [])])
    case Sec(_, n, Items(xs)) => Under(n, ContentLeaves(xs, |xs|))
  }

  /** The leaves of the first `n` entries of a content list: a string is a
      leaf with its own index, a section contributes its leaves. */
  function ContentLeaves(xs: seq<Entry>, n: nat): seq<Leaf>
    requires n <= |xs|
    decreases xs, 2, n
  {
    if n == 0 then []
    else ContentLeaves(xs, n - 1)
         + (if xs[n - 1].Text? then [Leaf(xs[n - 1].text, n - 1, [])] else EntryLeaves(xs[n - 1]))
  }

  /** The leaves of a top-level list, in document order. */
  function Leaves(xs: seq<Entry>): seq<Leaf>
    decreases xs, 0
  {
    if xs == [] then [] else Leaves(xs[..|xs| - 1]) + EntryLeaves(xs[|xs| - 1])
  }

  /** A record that reports leaf `l` as number `root` of the document. */
  predicate Describes(p: Paragraph, l: Leaf, root: int)
  {
    p.text == l.text && p.order == l.order && p.orderRoot == root
    && p.ancestors == Split(p.path, Sep)
  }

  /** `w'` is `w` with one record per leaf appended, in order, numbered on
      from `w.counter`. */
  ghost predicate Reports(w: Walk, w': Walk, leaves: seq<Leaf>)
  {
    && |w'.collected| == |w.collected| + |leaves|
    && w'.collected[..|w.collected|] == w.collected
    && w'.counter == w.counter + |leaves|
    && forall k :: 0 <= k < |leaves| ==>
         Describes(w'.collected[|w.collected| + k], leaves[k], w.counter + k)
  }

  /** The records appended from `w` to `w'` carry the ancestors `base`
      followed by each leaf's chain, and the path that joins them. */
  ghost predicate Placed(w: Walk, w': Walk, leaves: seq<Leaf>, base: seq<string>)
  {
    && |w'.collected| == |w.collected| + |leaves|
    && forall k :: 0 <= k < |leaves| ==>
         && w'.collected[|w.collected| + k].ancestors == base + leaves[k].chain
         && w'.collected[|w.collected| + k].path == Join(base + leaves[k].chain, Sep)
  }

  /** A name the path arithmetic cannot confuse: non-empty and free of `$`. */
  predicate CleanName(n: string)
  {
    n != "" && '$' !in n
  }

  /** An ancestor list that joins and splits back to itself. */
  predicate CleanPath(a: seq<string>)
  {
    |a| > 0 && forall k :: 0 <= k < |a| ==> '$' !in a[k]
  }

  /** Every section at every depth has a clean name. */
  ghost predicate EntryWellNamed(e: Entry)
    decreases e, 0
  {
    match e
    case Text(_) => true
    case Sec(_, n, Str(_)) => CleanName(n)
    case Sec(_, n, Items(xs)) => CleanName(n) && WellNamed(xs)
  }

  ghost predicate WellNamed(xs: seq<Entry>)
    decreases xs, 1
  {
    forall k :: 0 <= k < |xs| ==> EntryWellNamed(xs[k])
  }

  // ---------------------------------------------------------------------
  // Composition of the two relations.

  lemma ReportsTrans(w1: Walk, w2: Walk, w3: Walk, l1: seq<Leaf>, l2: seq<Leaf>)
    requires Reports(w1, w2, l1) && Reports(w2, w3, l2)
    ensures Reports(w1, w3, l1 + l2)
  {
    var n1, n2 := |w1.collected|, |w2.collected|;
    assert w3.collected[..n1] == w3.collected[..n2][..n1];
    forall k | 0 <= k < |l1 + l2|
      ensures Describes(w3.collected[n1 + k], (l1 + l2)[k], w1.counter + k)
    {
      if k < |l1| {
        assert w3.collected[n1 + k] == w3.collected[..n2][n1 + k];
        assert Describes(w2.collected[n1 + k], l1[k], w1.counter + k);
      } else {
        var k2 := k - |l1|;
        assert Describes(w3.collected[n2 + k2], l2[k2], w2.counter + k2);
      }
    }
  }

  lemma PlacedTrans(w1: Walk, w2: Walk, w3: Walk, l1: seq<Leaf>, l2: seq<Leaf>, base: seq<string>)
    requires Reports(w1, w2, l1) && Reports(w2, w3, l2)
    requires Placed(w1, w2, l1, base) && Placed(w2, w3, l2, base)
    ensures Placed(w1, w3, l1 + l2, base)
  {
    var n1, n2 := |w1.collected|, |w2.collected|;
    forall k | 0 <= k < |l1 + l2|
      ensures w3.collected[n1 + k].ancestors == base + (l1 + l2)[k].chain
      ensures w3.collected[n1 + k].path == Join(base + (l1 + l2)[k].chain, Sep)
    {
      if k < |l1| {
        assert w3.collected[n1 + k] == w3.collected[..n2][n1 + k];
        assert w2.collected[n1 + k].ancestors == base + l1[k].chain;
      } else {
        var k2 := k - |l1|;
        assert w3.collected[n2 + k2].ancestors == base + l2[k2].chain;
      }
    }
  }

  /** Prefixing a name to the chains moves it from the base ancestors. */
  lemma PlacedUnder(w: Walk, w': Walk, leaves: seq<Leaf>, base: seq<string>, name: string)
    requires name != ""
    requires Placed(w, w', leaves, base + [name])
    ensures Placed(w, w', Under(name, leaves), base)
  {
    var u := Under(name, leaves);
    forall k | 0 <= k < |u|
      ensures w'.collected[|w.collected| + k].ancestors == base + u[k].chain
      ensures w'.collected[|w.collected| + k].path == Join(base + u[k].chain, Sep)
    {
      assert (base + [name]) + leaves[k].chain == base + u[k].chain;
    }
  }

  lemma ReportsUnder(w: Walk, w': Walk, leaves: seq<Leaf>, name: string)
    requires Reports(w, w', leaves)
    ensures Reports(w, w', Under(name, leaves))
  {
    var u := Under(name, leaves);
    forall k | 0 <= k < |u|
      ensures Describes(w'.collected[|w.collected| + k], u[k], w.counter + k)
    {
      assert Describes(w'.collected[|w.collected| + k], leaves[k], w.counter + k);
    }
  }

  lemma ReportsEmitted(w: Walk, path: string, s: string, j: nat)
    ensures Reports(w, Emitted(w, path, s, j), [Leaf(s, j, [])])
  {
    var w' := Emitted(w, path, s, j);
    assert w'.collected[|w.collected| + 0] == Paragraph(Split(path, Sep), path, s, j, w.counter);
  }

  lemma PlacedEmitted(w: Walk, base: seq<string>, s: string, j: nat)
    requires CleanPath(base)
    ensures Placed(w, Emitted(w, Join(base, Sep), s, j), [Leaf(s, j, [])], base)
  {
    SplitJoinClean(base);
    var w' := Emitted(w, Join(base, Sep), s, j);
    assert w'.collected[|w.collected| + 0].ancestors == base + [];
  }

  lemma SplitJoinClean(a: seq<string>)
    requires CleanPath(a)
    ensures Split(Join(a, Sep), Sep) == a
  {
    SplitJoin(a, Sep);
  }

  /** A name that ends in `$` does not survive the round trip: `a$` and `b`
      join to `a$$$b`, whose split finds the separator right after `a`. */
  lemma DollarNameBreaksSplit()
    ensures Join(["a$", "b"], Sep) == "a$$$b"
    ensures Split("a$$$b", Sep) == ["a", "$b"]
    ensures Split(Join(["a$", "b"], Sep), Sep) != ["a$", "b"]
  {
    var s := Join(["a$", "b"], Sep);
    assert s == "a$" + Sep + "b";
    assert s == "a$$$b";
    assert s[0..2][0] != Sep[0];
    assert OccursAt(s, Sep, 1);
    assert FindFrom(s, Sep, 0) == Basics.Some(1);
    var rest := s[1 + |Sep|..];
    assert rest == "$b";
    assert rest[0..2][1] != Sep[1];
    assert FindFrom(rest, Sep, 0).None?;
    assert Split(rest, Sep) == [rest];
    assert Split(s, Sep) == [s[..1]] + Split(rest, Sep);
    assert s[..1] == "a";
  }

  /** The path of a named section under clean ancestors is the join of the
      ancestors extended by its name. */
  lemma NamedPath(a: seq<string>, name: string)
    requires CleanPath(a) && CleanName(name)
    ensures CleanPath(a + [name])
    ensures PathOf(a, name) == Join(a + [name], Sep)
    ensures Parent(a + [name]) == a
  {
    JoinSnoc(a, name, Sep);
    assert (a + [name])[..|a|] == a;
  }

  lemma ContentLeavesAllSections(xs: seq<Entry>, n: nat)
    requires n <= |xs| && AllSections(xs)
    ensures ContentLeaves(xs, n) == Leaves(xs[..n])
  {
    if n > 0 {
      ContentLeavesAllSections(xs, n - 1);
      assert xs[..n][..n - 1] == xs[..n - 1];
      assert xs[n - 1] in xs;
    } else {
      assert xs[..0] == [];
    }
  }

  // ---------------------------------------------------------------------
  // The main induction: one record per leaf, and, for well-named trees,
  // the ancestors and path of every record.

  lemma {:induction false} VisitsReports(sections: seq<Entry>, w: Walk)
    ensures Reports(w, Visits(sections, w), Leaves(sections))
    ensures WellNamed(sections) && CleanPath(w.ancestors) ==>
              Placed(w, Visits(sections, w), Leaves(sections), w.ancestors)
              && Visits(sections, w).ancestors == w.ancestors
    decreases sections, 1
  {
    if sections == [] {
    } else {
      var init, last := sections[..|sections| - 1], sections[|sections| - 1];
      var mid := Visits(init, w);
      VisitsReports(init, w);
      VisitReports(last, mid);
      ReportsTrans(w, mid, Visits(sections, w), Leaves(init), EntryLeaves(last));
      if WellNamed(sections) && CleanPath(w.ancestors) {
        assert WellNamed(init) by {
          forall k | 0 <= k < |init| ensures EntryWellNamed(init[k]) {
            assert init[k] == sections[k];
          }
        }
        assert EntryWellNamed(last);
        PlacedTrans(w, mid, Visits(sections, w), Leaves(init), EntryLeaves(last), w.ancestors);
      }
    }
  }

  lemma {:induction false} VisitReports(e: Entry, w: Walk)
    ensures Reports(w, Visit(e, w), EntryLeaves(e))
    ensures EntryWellNamed(e) && CleanPath(w.ancestors) ==>
              Placed(w, Visit(e, w), EntryLeaves(e), w.ancestors)
              && Visit(e, w).ancestors == w.ancestors
    decreases e, 0
  {
    var a := w.ancestors;
    var path := PathOf(a, NameOf(e));
    match e
    case Text(s) =>
      ReportsEmitted(w, path, s, 0);
      if CleanPath(a) {
        PlacedEmitted(w, a, s, 0);
      }
    case Sec(_, n, Str(s)) =>
      ReportsEmitted(w, path, s, 0);
      ReportsUnder(w, Visit(e, w), [Leaf(s, 0, [])], n);
      if EntryWellNamed(e) && CleanPath(a) {
        NamedPath(a, n);
        PlacedEmitted(w, a + [n], s, 0);
        PlacedUnder(w, Visit(e, w), [Leaf(s, 0, [])], a, n);
      }
    case Sec(_, n, Items(xs)) =>
      if AllSections(xs) {
        var inner := w.(ancestors := Split(path, Sep));
        var v := Visits(xs, inner);
        assert Visit(e, w) == v.(ancestors := Parent(v.ancestors));
        VisitsReports(xs, inner);
        ContentLeavesAllSections(xs, |xs|);
        assert xs[..|xs|] == xs;
        Rebased(inner, v, w, Visit(e, w), Leaves(xs));
        ReportsUnder(w, Visit(e, w), Leaves(xs), n);
        if EntryWellNamed(e) && CleanPath(a) {
          NamedPath(a, n);
          SplitJoinClean(a + [n]);
          assert inner.ancestors == a + [n];
          assert Placed(w, Visit(e, w), Leaves(xs), a + [n]);
          PlacedUnder(w, Visit(e, w), Leaves(xs), a, n);
        }
      } else {
        EmitReports(xs, |xs|, path, w);
        ReportsUnder(w, Visit(e, w), ContentLeaves(xs, |xs|), n);
        if EntryWellNamed(e) && CleanPath(a) {
          NamedPath(a, n);
          EmitPlaced(xs, |xs|, a + [n], w);
          EmitAncestors(xs, |xs|, a + [n], w);
          PlacedUnder(w, Visit(e, w), ContentLeaves(xs, |xs|), a, n);
        }
      }
  }

  lemma {:induction false} EmitReports(xs: seq<Entry>, n: nat, path: string, w: Walk)
    requires n <= |xs|
    ensures Reports(w, Emit(xs, n, path, w), ContentLeaves(xs, n))
    decreases xs, 3, n
  {
    if n > 0 {
      EmitReports(xs, n - 1, path, w);
      EmitReportsStep(xs, n, path, w, Emit(xs, n - 1, path, w));
    }
  }

  /** The step of `EmitReports` for the last entry of the prefix. */
  lemma EmitReportsStep(xs: seq<Entry>, n: nat, path: string, w: Walk, mid: Walk)
    requires 0 < n <= |xs|
    requires mid == Emit(xs, n - 1, path, w)
    requires Reports(w, mid, ContentLeaves(xs, n - 1))
    ensures Reports(w, Emit(xs, n, path, w), ContentLeaves(xs, n))
    decreases xs, 2, n
  {
    var out := Emit(xs, n, path, w);
    match xs[n - 1]
    case Text(s) =>
      assert out == Emitted(mid, path, s, n - 1);
      assert ContentLeaves(xs, n) == ContentLeaves(xs, n - 1) + [Leaf(s, n - 1, [])];
      ReportsEmitted(mid, path, s, n - 1);
      ReportsTrans(w, mid, out, ContentLeaves(xs, n - 1), [Leaf(s, n - 1, [])]);
    case Sec(_, _, _) =>
      var inner := mid.(ancestors := Split(path, Sep));
      var v := Visit(xs[n - 1], inner);
      assert out == v.(ancestors := Parent(v.ancestors));
      assert ContentLeaves(xs, n) == ContentLeaves(xs, n - 1) + EntryLeaves(xs[n - 1]);
      VisitReports(xs[n - 1], inner);
      Rebased(inner, v, mid, out, EntryLeaves(xs[n - 1]));
      ReportsTrans(w, mid, out, ContentLeaves(xs, n - 1), EntryLeaves(xs[n - 1]));
  }

  /** Both relations look only at the records and the counter. */
  lemma Rebased(w1: Walk, w1': Walk, w2: Walk, w2': Walk, leaves: seq<Leaf>)
    requires w1.collected == w2.collected && w1.counter == w2.counter
    requires w1'.collected == w2'.collected && w1'.counter == w2'.counter
    requires Reports(w1, w1', leaves)
    ensures Reports(w2, w2', leaves)
    ensures forall base :: Placed(w1, w1', leaves, base) ==> Placed(w2, w2', leaves, base)
  {
  }

  /** In a well-named mixed list under a clean path, every record is placed
      under that path. */
  lemma {:induction false} EmitPlaced(xs: seq<Entry>, n: nat, base: seq<string>, w: Walk)
    requires n <= |xs| && WellNamed(xs) && CleanPath(base)
    ensures Placed(w, Emit(xs, n, Join(base, Sep), w), ContentLeaves(xs, n), base)
    decreases xs, 3, n
  {
    if n > 0 {
      EmitPlaced(xs, n - 1, base, w);
      EmitReports(xs, n - 1, Join(base, Sep), w);
      EmitPlacedStep(xs, n, base, w, Emit(xs, n - 1, Join(base, Sep), w));
    }
  }

  /** The step of `EmitPlaced` for the last entry of the prefix. */
  lemma EmitPlacedStep(xs: seq<Entry>, n: nat, base: seq<string>, w: Walk, mid: Walk)
    requires 0 < n <= |xs| && WellNamed(xs) && CleanPath(base)
    requires mid == Emit(xs, n - 1, Join(base, Sep), w)
    requires Reports(w, mid, ContentLeaves(xs, n - 1))
    requires Placed(w, mid, ContentLeaves(xs, n - 1), base)
    ensures Placed(w, Emit(xs, n, Join(base, Sep), w), ContentLeaves(xs, n), base)
    decreases xs, 2, n
  {
    assert EntryWellNamed(xs[n - 1]);
    if xs[n - 1].Text? {
      EmitPlacedText(xs, n, base, w, mid);
    } else {
      EmitPlacedSec(xs, n, base, w, mid);
    }
  }

  /** The step of `EmitPlaced` for a string of the list. */
  lemma EmitPlacedText(xs: seq<Entry>, n: nat, base: seq<string>, w: Walk, mid: Walk)
    requires 0 < n <= |xs| && xs[n - 1].Text? && CleanPath(base)
    requires mid == Emit(xs, n - 1, Join(base, Sep), w)
    requires Reports(w, mid, ContentLeaves(xs, n - 1))
    requires Placed(w, mid, ContentLeaves(xs, n - 1), base)
    ensures Placed(w, Emit(xs, n, Join(base, Sep), w), ContentLeaves(xs, n), base)
  {
    var path := Join(base, Sep);
    var s := xs[n - 1].text;
    var out := Emit(xs, n, path, w);
    assert out == Emitted(mid, path, s, n - 1);
    assert ContentLeaves(xs, n) == ContentLeaves(xs, n - 1) + [Leaf(s, n - 1, [])];
    ReportsEmitted(mid, path, s, n - 1);
    PlacedEmitted(mid, base, s, n - 1);
    PlacedTrans(w, mid, out, ContentLeaves(xs, n - 1), [Leaf(s, n - 1, [])], base);
  }

  /** The step of `EmitPlaced` for a nested section of the list. */
  lemma EmitPlacedSec(xs: seq<Entry>, n: nat, base: seq<string>, w: Walk, mid: Walk)
    requires 0 < n <= |xs| && xs[n - 1].Sec? && EntryWellNamed(xs[n - 1]) && CleanPath(base)
    requires mid == Emit(xs, n - 1, Join(base, Sep), w)
    requires Reports(w, mid, ContentLeaves(xs, n - 1))
    requires Placed(w, mid, ContentLeaves(xs, n - 1), base)
    ensures Placed(w, Emit(xs, n, Join(base, Sep), w), ContentLeaves(xs, n), base)
    decreases xs, 1, n
  {
    var path := Join(base, Sep);
    var inner := mid.(ancestors := Split(path, Sep));
    var v := Visit(xs[n - 1], inner);
    var out := Emit(xs, n, path, w);
    assert out == v.(ancestors := Parent(v.ancestors));
    assert ContentLeaves(xs, n) == ContentLeaves(xs, n - 1) + EntryLeaves(xs[n - 1]);
    SplitJoinClean(base);
    VisitReports(xs[n - 1], inner);
    Rebased(inner, v, mid, out, EntryLeaves(xs[n - 1]));
    PlacedTrans(w, mid, out, ContentLeaves(xs, n - 1), EntryLeaves(xs[n - 1]), base);
  }

  /** The ancestors a mixed list hands back: the path's parent once a
      section has been unwound, and the caller's own before that. */
  lemma {:induction false} EmitAncestors(xs: seq<Entry>, n: nat, base: seq<string>, w: Walk)
    requires n <= |xs| && WellNamed(xs) && CleanPath(base)
    ensures Emit(xs, n, Join(base, Sep), w).ancestors
            == if exists k :: 0 <= k < n && xs[k].Sec? then Parent(base) else w.ancestors
    decreases xs, 3, n, 1
  {
    if n > 0 {
      EmitAncestors(xs, n - 1, base, w);
      EmitAncestorsStep(xs, n, base, w);
    }
  }

  /** The step of `EmitAncestors` for the last entry of the prefix. */
  lemma EmitAncestorsStep(xs: seq<Entry>, n: nat, base: seq<string>, w: Walk)
    requires 0 < n <= |xs| && WellNamed(xs) && CleanPath(base)
    requires Emit(xs, n - 1, Join(base, Sep), w).ancestors
             == if exists k :: 0 <= k < n - 1 && xs[k].Sec? then Parent(base) else w.ancestors
    ensures Emit(xs, n, Join(base, Sep), w).ancestors
            == if exists k :: 0 <= k < n && xs[k].Sec? then Parent(base) else w.ancestors
    decreases xs, 3, n, 0
  {
    var path := Join(base, Sep);
    var mid := Emit(xs, n - 1, path, w);
    assert EntryWellNamed(xs[n - 1]);
    match xs[n - 1]
    case Text(s) =>
      if exists k :: 0 <= k < n && xs[k].Sec? {
        var k :| 0 <= k < n && xs[k].Sec?;
        assert k < n - 1;
      }
    case Sec(_, _, _) =>
      var inner := mid.(ancestors := Split(path, Sep));
      SplitJoinClean(base);
      VisitReports(xs[n - 1], inner);
  }

  /** An unnamed section hands its parent's path down unchanged, so when it
      unwinds a section of its own (or nothing at all) the trim at the end
      of that inner call removes one of the caller's ancestors; with only
      strings inside, the ancestors are left as they were. */
  lemma UnnamedSectionDropsAncestor(kind: string, xs: seq<Entry>, w: Walk)
    requires WellNamed(xs) && CleanPath(w.ancestors)
    ensures Visit(Sec(kind, "", Items(xs)), w).ancestors
            == if xs == [] || exists k :: 0 <= k < |xs| && xs[k].Sec? then Parent(w.ancestors) else w.ancestors
  {
    var a := w.ancestors;
    var path := Join(a, Sep);
    SplitJoinClean(a);
    if AllSections(xs) {
      VisitsReports(xs, w.(ancestors := Split(path, Sep)));
      if xs != [] {
        assert xs[0] in xs;
      }
    } else {
      EmitAncestors(xs, |xs|, a, w);
    }
  }

  /** The texts of a list of leaves. */
  function LeafTexts(leaves: seq<Leaf>): (r: seq<string>)
    ensures |r| == |leaves|
  {
    seq(|leaves|, k requires 0 <= k < |leaves| => leaves[k].text)
  }

  lemma LeafTextsAppend(a: seq<Leaf>, b: seq<Leaf>)
    ensures LeafTexts(a + b) == LeafTexts(a) + LeafTexts(b)
  {
  }

  /** The leaves carry exactly the text leaves of the tree, in document
      order, so the records hold every string once and nothing else. */
  lemma {:induction false} LeavesTexts(xs: seq<Entry>)
    ensures LeafTexts(Leaves(xs)) == Texts(xs)
    decreases xs, 1
  {
    if xs != [] {
      var init, last := xs[..|xs| - 1], xs[|xs| - 1];
      LeavesTexts(init);
      EntryLeavesTexts(last);
      LeafTextsAppend(Leaves(init), EntryLeaves(last));
    }
  }

  lemma {:induction false} EntryLeavesTexts(e: Entry)
    ensures LeafTexts(EntryLeaves(e)) == EntryTexts(e)
    decreases e, 0
  {
    match e
    case Text(_) =>
    case Sec(_, n, Str(s)) =>
      assert LeafTexts(Under(n, [Leaf(s, 0, [])])) == [s];
    case Sec(_, n, Items(xs)) =>
      ContentLeavesTexts(xs, |xs|);
      assert xs[..|xs|] == xs;
      assert LeafTexts(Under(n, ContentLeaves(xs, |xs|))) == LeafTexts(ContentLeaves(xs, |xs|));
  }

  lemma {:induction false} ContentLeavesTexts(xs: seq<Entry>, n: nat)
    requires n <= |xs|
    ensures LeafTexts(ContentLeaves(xs, n)) == Texts(xs[..n])
    decreases xs, 2, n
  {
    if n == 0 {
      assert xs[..0] == [];
    } else {
      ContentLeavesTexts(xs, n - 1);
      assert xs[..n][..n - 1] == xs[..n - 1];
      var x := xs[n - 1];
      if x.Text? {
        LeafTextsAppend(ContentLeaves(xs, n - 1), [Leaf(x.text, n - 1, [])]);
      } else {
        EntryLeavesTexts(x);
        LeafTextsAppend(ContentLeaves(xs, n - 1), EntryLeaves(x));
      }
    }
  }

  // ---------------------------------------------------------------------
  // String content rewritten in place.

  /** The tree as the walk leaves it: every string content replaced by a
      one-element list holding that string. */
  function NormalizedEntry(e: Entry): Entry
    decreases e, 0
  {
    match e
    case Text(_) => e
    case Sec(k, n, Str(s)) => Sec(k, n, Items([Text(s)]))
    case Sec(k, n, Items(xs)) => Sec(k, n, Items(Normalized(xs)))
  }

  function Normalized(xs: seq<Entry>): (r: seq<Entry>)
    ensures |r| == |xs|
    decreases xs, 1
  {
    if xs == [] then [] else Normalized(xs[..|xs| - 1]) + [NormalizedEntry(xs[|xs| - 1])]
  }

  lemma {:induction false} NormalizedAt(xs: seq<Entry>, k: nat)
    requires k < |xs|
    ensures Normalized(xs)[k] == NormalizedEntry(xs[k])
  {
    if k < |xs| - 1 {
      NormalizedAt(xs[..|xs| - 1], k);
    }
  }

  /** After the rewrite no section holds string content. */
  ghost predicate NoStringContent(xs: seq<Entry>)
    decreases xs
  {
    forall k :: 0 <= k < |xs| ==> match xs[k]
      case Text(_) => true
      case Sec(_, _, Str(_)) => false
      case Sec(_, _, Items(ys)) => NoStringContent(ys)
  }

  lemma {:induction false} NormalizedHasNoStringContent(xs: seq<Entry>)
    ensures NoStringContent(Normalized(xs))
    decreases xs
  {
    forall k | 0 <= k < |xs|
      ensures match Normalized(xs)[k]
        case Text(_) => true
        case Sec(_, _, Str(_)) => false
        case Sec(_, _, Items(ys)) => NoStringContent(ys)
    {
      NormalizedAt(xs, k);
      match xs[k]
      case Text(_) =>
      case Sec(_, _, Str(s)) =>
        assert NoStringContent([Text(s)]);
      case Sec(_, _, Items(ys)) =>
        NormalizedHasNoStringContent(ys);
    }
  }

  lemma NormalizedSections(xs: seq<Entry>)
    ensures AllSections(Normalized(xs)) == AllSections(xs)
  {
    forall k | 0 <= k < |xs| ensures Normalized(xs)[k].Sec? == xs[k].Sec? {
      NormalizedAt(xs, k);
    }
    if !AllSections(xs) {
      var x :| x in xs && !x.Sec?;
      var k :| 0 <= k < |xs| && xs[k] == x;
      assert Normalized(xs)[k] in Normalized(xs);
    }
    if !AllSections(Normalized(xs)) {
      var x :| x in Normalized(xs) && !x.Sec?;
      var k :| 0 <= k < |xs| && Normalized(xs)[k] == x;
      assert xs[k] in xs;
    }
  }

  /** Unwinding the rewritten tree gives exactly what unwinding the
      original gave: the rewrite is invisible to a second walk. */
  lemma {:induction false} UnwoundNormalized(xs: seq<Entry>, w: Walk)
    ensures Unwound(Normalized(xs), w) == Unwound(xs, w)
    decreases xs, 2
  {
    VisitsNormalized(xs, w);
  }

  lemma {:induction false} VisitsNormalized(xs: seq<Entry>, w: Walk)
    ensures Visits(Normalized(xs), w) == Visits(xs, w)
    decreases xs, 1
  {
    if xs != [] {
      var ys := Normalized(xs);
      assert ys[..|ys| - 1] == Normalized(xs[..|xs| - 1]);
      VisitsNormalized(xs[..|xs| - 1], w);
      VisitNormalized(xs[|xs| - 1], Visits(xs[..|xs| - 1], w));
    }
  }

  lemma {:induction false} VisitNormalized(e: Entry, w: Walk)
    ensures Visit(NormalizedEntry(e), w) == Visit(e, w)
    decreases e, 0
  {
    match e
    case Text(_) =>
    case Sec(_, n, Str(s)) =>
      assert !AllSections([Text(s)]) by { assert Text(s) in [Text(s)]; }
      var path := PathOf(w.ancestors, n);
      assert Emit([Text(s)], 1, path, w) == Emitted(Emit([Text(s)], 0, path, w), path, s, 0);
    case Sec(_, n, Items(xs)) =>
      NormalizedSections(xs);
      var path := PathOf(w.ancestors, n);
      if AllSections(xs) {
        UnwoundNormalized(xs, w.(ancestors := Split(path, Sep)));
      } else {
        EmitNormalized(xs, |xs|, path, w);
      }
  }

  lemma {:induction false} EmitNormalized(xs: seq<Entry>, n: nat, path: string, w: Walk)
    requires n <= |xs|
    ensures Emit(Normalized(xs), n, path, w) == Emit(xs, n, path, w)
    decreases xs, 3, n
  {
    if n > 0 {
      EmitNormalized(xs, n - 1, path, w);
      EmitNormalizedStep(xs, n, path, w, Emit(xs, n - 1, path, w));
    }
  }

  /** The step of `EmitNormalized` for the last entry of the prefix. */
  lemma EmitNormalizedStep(xs: seq<Entry>, n: nat, path: string, w: Walk, mid: Walk)
    requires 0 < n <= |xs|
    requires mid == Emit(xs, n - 1, path, w)
    requires Emit(Normalized(xs), n - 1, path, w) == mid
    ensures Emit(Normalized(xs), n, path, w) == Emit(xs, n, path, w)
    decreases xs, 2, n
  {
    var ys := Normalized(xs);
    NormalizedAt(xs, n - 1);
    assert ys[n - 1] == NormalizedEntry(xs[n - 1]);
    if xs[n - 1].Sec? {
      VisitNormalized(xs[n - 1], mid.(ancestors := Split(path, Sep)));
    }
  }

  // ---------------------------------------------------------------------
  // The batch scripts' call.

  /** A walk that starts with no records and the counter at 0 numbers its
      leaves from 0. */
  lemma ReportsFromEmpty(w: Walk, w': Walk, leaves: seq<Leaf>)
    requires w.collected == [] && w.counter == 0
    requires Reports(w, w', leaves)
    ensures w'.counter == |w'.collected| == |leaves|
    ensures forall k :: 0 <= k < |w'.collected| ==> Describes(w'.collected[k], leaves[k], k)
  {
    forall k | 0 <= k < |w'.collected|
      ensures Describes(w'.collected[k], leaves[k], k)
    {
      assert Describes(w'.collected[0 + k], leaves[k], 0 + k);
    }
  }

  /** From the root call, the walk reports every leaf of the paper once, in
      order, numbered from 0. */
  lemma UnwoundFromRoot(sections: seq<Entry>)
    ensures var u := Unwound(sections, Walk([], [Root], 0));
            && u.counter == |u.collected| == |Leaves(sections)|
            && forall k :: 0 <= k < |u.collected| ==> Describes(u.collected[k], Leaves(sections)[k], k)
  {
    var start := Walk([], [Root], 0);
    VisitsReports(sections, start);
    ReportsFromEmpty(start, Visits(sections, start), Leaves(sections));
  }

  /** A walk that starts with no records places its leaves' records from
      index 0. */
  lemma PlacedFromEmpty(w: Walk, w': Walk, leaves: seq<Leaf>, base: seq<string>)
    requires w.collected == []
    requires Placed(w, w', leaves, base)
    ensures |w'.collected| == |leaves|
    ensures forall k :: 0 <= k < |w'.collected| ==>
              w'.collected[k].ancestors == base + leaves[k].chain
              && w'.collected[k].path == Join(base + leaves[k].chain, Sep)
  {
    forall k | 0 <= k < |w'.collected|
      ensures w'.collected[k].ancestors == base + leaves[k].chain
      ensures w'.collected[k].path == Join(base + leaves[k].chain, Sep)
    {
      assert w'.collected[0 + k] == w'.collected[k];
    }
  }

  /** From the root call, a well-named paper's records hang under `_root`
      and the walk hands back `['_root']`. */
  lemma UnwoundFromRootPlaced(sections: seq<Entry>)
    requires WellNamed(sections)
    ensures var u := Unwound(sections, Walk([], [Root], 0));
            && u.ancestors == [Root]
            && |u.collected| == |Leaves(sections)|
            && forall k :: 0 <= k < |u.collected| ==>
                 u.collected[k].ancestors == [Root] + Leaves(sections)[k].chain
                 && u.collected[k].path == Join([Root] + Leaves(sections)[k].chain, Sep)
  {
    var start := Walk([], [Root], 0);
    assert CleanPath([Root]);
    VisitsReports(sections, start);
    PlacedFromEmpty(start, Visits(sections, start), Leaves(sections), [Root]);
  }

  /** `unwind_sections(parsed_paper['Sections'], collected_content=[],
      ancestors=['_root'])`: one record per text leaf, numbered from 0 in
      document order, holding the leaf's text and its index in its own
      content list. For well-named trees each record's ancestors are `_root`
      followed by the names of the sections around the leaf, and the call
      hands `['_root']` back. */
  method UnwindPaper(sections: seq<Entry>) returns (paragraphs: seq<Paragraph>, ancestors: seq<string>, total: int)
    ensures total == |paragraphs| == |Leaves(sections)|
    ensures forall k :: 0 <= k < |paragraphs| ==> Describes(paragraphs[k], Leaves(sections)[k], k)
    ensures LeafTexts(Leaves(sections)) == Texts(sections)
    ensures WellNamed(sections) ==>
              ancestors == [Root]
              && forall k :: 0 <= k < |paragraphs| ==>
                   paragraphs[k].ancestors == [Root] + Leaves(sections)[k].chain
                   && paragraphs[k].path == Join([Root] + Leaves(sections)[k].chain, Sep)
  {
    paragraphs, ancestors, total := UnwindSections(sections, [], [Root], 0);
    UnwoundFromRoot(sections);
    LeavesTexts(sections);
    if WellNamed(sections) {
      UnwoundFromRootPlaced(sections);
    }
  }
}
