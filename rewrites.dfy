/** Deleting spans from a string, left to right, as `re.sub(pattern, '', s)`
    does for a pattern that cannot match the empty string: at each position
    either a match starts there and the whole match is dropped, or the
    character is kept and the scan moves on by one. */
module Rewrites {

  /** One step of the scan: a kept character, or a deleted span. */
  datatype Piece = Keep(c: char) | Cut(span: string)

  /** The input the pieces were cut from. */
  function Joined(ps: seq<Piece>): string
  {
    if ps == [] then []
    else (match ps[0] case Keep(c) => [c] case Cut(t) => t) + Joined(ps[1..])
  }

  /** The output: the kept characters in order. */
  function Kept(ps: seq<Piece>): string
  {
    if ps == [] then [] else (if ps[0].Keep? then [ps[0].c] else []) + Kept(ps[1..])
  }

  /** The scan with a match finder: `span(t)` is the length of the match
      that starts at the beginning of `t`, or 0 when none does. */
  function RemoveSpans(s: string, span: string -> nat): string
    requires forall t :: span(t) <= |t|
    decreases |s|
  {
    if s == [] then []
    else if span(s) > 0 then RemoveSpans(s[span(s)..], span)
    else [s[0]] + RemoveSpans(s[1..], span)
  }

  /** The steps the scan takes on `s`. */
  function SpanPieces(s: string, span: string -> nat): seq<Piece>
    requires forall t :: span(t) <= |t|
    decreases |s|
  {
    if s == [] then []
    else if span(s) > 0 then [Cut(s[..span(s)])] + SpanPieces(s[span(s)..], span)
    else [Keep(s[0])] + SpanPieces(s[1..], span)
  }

  /** Every piece is what the finder reports where the piece starts: a cut
      is a whole match, and a kept character is one where no match starts. */
  ghost predicate Scanned(ps: seq<Piece>, span: string -> nat)
  {
    forall k :: 0 <= k < |ps| ==>
      (ps[k].Cut? ==> 0 < |ps[k].span| == span(Joined(ps[k..])))
      && (ps[k].Keep? ==> span(Joined(ps[k..])) == 0)
  }

  /** The pieces put back together give the input. */
  lemma {:induction false} SpanPiecesJoin(s: string, span: string -> nat)
    requires forall t :: span(t) <= |t|
    ensures Joined(SpanPieces(s, span)) == s
    decreases |s|
  {
    if s != [] {
      var n := span(s);
      var head, rest := if n > 0 then s[..n] else [s[0]], if n > 0 then s[n..] else s[1..];
      var p := if n > 0 then Cut(head) else Keep(s[0]);
      assert SpanPieces(s, span) == [p] + SpanPieces(rest, span);
      SpanPiecesJoin(rest, span);
      PiecesCons(p, SpanPieces(rest, span));
      assert Joined(SpanPieces(s, span)) == head + rest;
      assert head + rest == s;
    }
  }

  /** The kept pieces are the output of the scan. */
  lemma {:induction false} SpanPiecesKept(s: string, span: string -> nat)
    requires forall t :: span(t) <= |t|
    ensures Kept(SpanPieces(s, span)) == RemoveSpans(s, span)
    decreases |s|
  {
    if s != [] {
      var n := span(s);
      if n > 0 {
        SpanPiecesKept(s[n..], span);
        PiecesCons(Cut(s[..n]), SpanPieces(s[n..], span));
      } else {
        SpanPiecesKept(s[1..], span);
        PiecesCons(Keep(s[0]), SpanPieces(s[1..], span));
      }
    }
  }

  /** Both readings of a list of pieces take its first piece, then the rest. */
  lemma PiecesCons(p: Piece, ps: seq<Piece>)
    ensures Joined([p] + ps) == (match p case Keep(c) => [c] case Cut(t) => t) + Joined(ps)
    ensures Kept([p] + ps) == (if p.Keep? then [p.c] else []) + Kept(ps)
  {
    assert ([p] + ps)[1..] == ps;
  }

  /** The output is the input with disjoint matches deleted and every other
      character kept in order. */
  lemma {:induction false} RemoveSpansDeletesMatches(s: string, span: string -> nat)
    requires forall t :: span(t) <= |t|
    ensures Joined(SpanPieces(s, span)) == s
    ensures Kept(SpanPieces(s, span)) == RemoveSpans(s, span)
    ensures Scanned(SpanPieces(s, span), span)
    decreases |s|
  {
    SpanPiecesJoin(s, span);
    SpanPiecesKept(s, span);
    if s != [] {
      var n := span(s);
      var rest := if n > 0 then s[n..] else s[1..];
      RemoveSpansDeletesMatches(rest, span);
      var ps := SpanPieces(s, span);
      assert ps == [ps[0]] + SpanPieces(rest, span);
      ScannedCons(ps[0], SpanPieces(rest, span), span);
    }
  }

  /** A piece that is what the finder reports at its start extends a
      scanned list. */
  lemma ScannedCons(p: Piece, ps: seq<Piece>, span: string -> nat)
    requires Scanned(ps, span)
    requires p.Cut? ==> 0 < |p.span| == span(Joined([p] + ps))
    requires p.Keep? ==> span(Joined([p] + ps)) == 0
    ensures Scanned([p] + ps, span)
  {
    var qs := [p] + ps;
    forall k | 0 < k < |qs|
      ensures (qs[k].Cut? ==> 0 < |qs[k].span| == span(Joined(qs[k..])))
      ensures (qs[k].Keep? ==> span(Joined(qs[k..])) == 0)
    {
      assert qs[k..] == ps[k - 1..];
    }
    assert qs[0..] == qs;
  }

  /** A cut piece is the match the finder reports where the piece starts. */
  lemma CutIsMatch(ps: seq<Piece>, span: string -> nat, k: nat)
    requires Scanned(ps, span) && k < |ps| && ps[k].Cut?
    ensures 0 < span(Joined(ps[k..]))
    ensures ps[k].span == Joined(ps[k..])[..span(Joined(ps[k..]))]
  {
    assert ps[k..][0] == ps[k] && ps[k..][1..] == ps[k + 1..];
    assert Joined(ps[k..]) == ps[k].span + Joined(ps[k + 1..]);
  }

  /** Where no match starts anywhere, nothing is deleted. */
  lemma {:induction false} RemoveSpansNoMatch(s: string, span: string -> nat)
    requires forall t :: span(t) <= |t|
    requires forall i :: 0 <= i < |s| ==> span(s[i..]) == 0
    ensures RemoveSpans(s, span) == s
    decreases |s|
  {
    if s != [] {
      assert span(s[0..]) == 0 && s[0..] == s;
      forall i | 0 <= i < |s| - 1 ensures span(s[1..][i..]) == 0 {
        assert s[1..][i..] == s[i + 1..];
      }
      RemoveSpansNoMatch(s[1..], span);
    }
  }
}
