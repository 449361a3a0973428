/**
 Exact-match edits of a source text: replace the one site of `find` by `replace`. The theory here is
 for any edits whose needles cannot overlap one another, over every source.
 */
module Edits {
  import opened Text

  type Needle = s: string | s != "" witness "x"

  datatype Edit = Edit(find: Needle, replace: Needle)

  function Rewrite(s: string, edits: seq<Edit>): string
    decreases |edits|
  {
    if edits == [] then s else Rewrite(ReplaceFirst(s, edits[0].find, edits[0].replace), edits[1..])
  }

  /** Every find occurs once and no replacement does. */
  predicate Unpatched(s: string, edits: seq<Edit>) {
    forall e :: e in edits ==> Occurrences(s, e.find) == 1 && Occurrences(s, e.replace) == 0
  }

  /** The mirror image. */
  predicate Patched(s: string, edits: seq<Edit>) {
    forall e :: e in edits ==> Occurrences(s, e.find) == 0 && Occurrences(s, e.replace) == 1
  }

  // ---------------------------------------------------------------- overlap conditions

  /** Neither needle of the edit can overlap a copy of itself. */
  ghost predicate SelfApart(e: Edit) {
    Unbordered(e.find) && Unbordered(e.replace)
  }

  /** `n` shares no character with any site of the edit, before or after it. */
  ghost predicate ApartFrom(n: string, e: Edit) {
    Independent(n, e.find) && Independent(n, e.replace)
  }

  ghost predicate Apart(e: Edit, f: Edit) {
    ApartFrom(e.find, f) && ApartFrom(e.replace, f)
  }

  ghost predicate ApartFromAll(n: string, edits: seq<Edit>) {
    forall e :: e in edits ==> ApartFrom(n, e)
  }

  /** The edits of one source file: no two of them can touch. */
  ghost predicate Harmonious(edits: seq<Edit>) {
    && (forall e :: e in edits ==> SelfApart(e))
    && (forall i, j :: 0 <= i < j < |edits| ==> Apart(edits[i], edits[j]))
  }

  /** The replacement neither holds its own find nor overlaps it. */
  ghost predicate Clean(edits: seq<Edit>) {
    forall e :: e in edits ==> Independent(e.find, e.replace)
  }

  lemma IndependentIsSymmetric(p: string, q: string)
    requires Independent(p, q)
    ensures Independent(q, p)
  {
  }

  lemma IndependentDiffer(p: string, q: string)
    requires Independent(p, q)
    ensures p != q
  {
    if p == q { assert At(p, q, 0); }
  }

  lemma HarmoniousTail(edits: seq<Edit>)
    requires Harmonious(edits) && edits != []
    ensures Harmonious(edits[1..]) && SelfApart(edits[0])
    ensures forall f :: f in edits[1..] ==> Apart(edits[0], f) && Apart(f, edits[0])
  {
    forall f | f in edits[1..] ensures Apart(edits[0], f) && Apart(f, edits[0]) {
      var j :| 0 <= j < |edits[1..]| && edits[1..][j] == f;
      assert Apart(edits[0], edits[j + 1]);
    }
  }

  lemma HarmoniousParts(head: seq<Edit>, tail: seq<Edit>)
    requires Harmonious(head + tail)
    ensures Harmonious(head) && Harmonious(tail)
    ensures forall e :: e in head ==> ApartFromAll(e.find, tail) && ApartFromAll(e.replace, tail)
  {
    var all := head + tail;
    forall e | e in head ensures SelfApart(e) { assert e in all; }
    forall e | e in tail ensures SelfApart(e) { assert e in all; }
    forall i, j | 0 <= i < j < |head| ensures Apart(head[i], head[j]) {
      assert head[i] == all[i] && head[j] == all[j];
    }
    forall i, j | 0 <= i < j < |tail| ensures Apart(tail[i], tail[j]) {
      assert tail[i] == all[|head| + i] && tail[j] == all[|head| + j];
    }
    forall e, f | e in head && f in tail ensures ApartFrom(e.find, f) && ApartFrom(e.replace, f) {
      var i :| 0 <= i < |head| && head[i] == e;
      var j :| 0 <= j < |tail| && tail[j] == f;
      assert Apart(all[i], all[|head| + j]);
    }
  }

  // ---------------------------------------------------------------- one edit

  /** An edit moves its own counts from (1, 0) to (0, 1). */
  lemma OwnCounts(s: string, e: Edit)
    requires SelfApart(e) && Independent(e.find, e.replace)
    requires Occurrences(s, e.find) == 1 && Occurrences(s, e.replace) == 0
    ensures var t := ReplaceFirst(s, e.find, e.replace);
            Occurrences(t, e.find) == 0 && Occurrences(t, e.replace) == 1
  {
    var a, b := SingleSite(s, e.find);
    ReplacesSite(a, e.find, b, e.replace);
    CountAround(a, e.replace, b, e.find);
    IndependentIsSymmetric(e.find, e.replace);
    CountAround(a, e.find, b, e.replace);
    CountOwn(a, e.replace, b);
  }

  /** An edit leaves every needle apart from it counted as before. */
  lemma OtherCounts(s: string, e: Edit, n: string)
    requires SelfApart(e) && Occurrences(s, e.find) == 1 && ApartFrom(n, e)
    ensures Occurrences(ReplaceFirst(s, e.find, e.replace), n) == Occurrences(s, n)
  {
    var a, b := SingleSite(s, e.find);
    ReplacesSite(a, e.find, b, e.replace);
    CountAround(a, e.find, b, n);
    CountAround(a, e.replace, b, n);
  }

  /** Putting the find back restores the source, character for character. */
  lemma EditIsReversible(s: string, e: Edit)
    requires SelfApart(e) && Occurrences(s, e.find) == 1 && Occurrences(s, e.replace) == 0
    ensures var t := ReplaceFirst(s, e.find, e.replace);
            ReplaceFirst(t, e.replace, e.find) == s == ReplaceAll(t, e.replace, e.find)
  {
    var a, b := SingleSite(s, e.find);
    AbsentMeansZero(s, e.replace);
    PiecesHoldNoMore(a, e.find, b, e.replace);
    ReplacesSite(a, e.find, b, e.replace);
    ReplacesSite(a, e.replace, b, e.find);
  }

  /**
   Two edits apart from each other commute, whichever way the second one replaces. `p` is the needle
   that stands at the second site and `w` what it becomes.
   */
  lemma EditsCommute(s: string, e: Edit, p: string, w: string)
    requires SelfApart(e) && Unbordered(p) && ApartFrom(p, e) && ApartFrom(w, e)
    requires Occurrences(s, e.find) == 1 && Occurrences(s, p) == 1
    ensures var t := ReplaceFirst(s, e.find, e.replace);
            && ReplaceFirst(t, p, w) == ReplaceFirst(ReplaceFirst(s, p, w), e.find, e.replace)
            && ReplaceAll(t, p, w) == ReplaceFirst(ReplaceAll(s, p, w), e.find, e.replace)
  {
    var t := ReplaceFirst(s, e.find, e.replace);
    OtherCounts(s, e, p);
    IndependentIsSymmetric(p, e.find);
    var a, b, c, eFirst := TwoSites(s, e.find, p);
    if eFirst {
      SwapOrdered(a, e.find, b, p, c, e.replace, w);
    } else {
      SwapOrdered(a, p, b, e.find, c, w, e.replace);
    }
  }

  /** Both orders of replacing two separate sites give the same text. */
  lemma SwapOrdered(a: string, p: string, b: string, q: string, c: string, p': string, q': string)
    requires Unbordered(p) && Unbordered(q)
    requires Independent(p, q) && Independent(p, q') && Independent(q, p')
    requires Occurrences(a + p + b + q + c, p) == 1 && Occurrences(a + p + b + q + c, q) == 1
    ensures var s := a + p + b + q + c;
            var done := a + p' + b + q' + c;
            && ReplaceFirst(s, p, p') == ReplaceAll(s, p, p') == a + p' + b + q + c
            && ReplaceFirst(s, q, q') == ReplaceAll(s, q, q') == a + p + b + q' + c
            && ReplaceFirst(a + p' + b + q + c, q, q') == ReplaceAll(a + p' + b + q + c, q, q') == done
            && ReplaceFirst(a + p + b + q' + c, p, p') == ReplaceAll(a + p + b + q' + c, p, p') == done
  {
    SiteInLeft(a, p, b, q, c, p', q');
    SiteInRight(a, p, b, q, c, p', q');
  }

  lemma SiteInLeft(a: string, p: string, b: string, q: string, c: string, p': string, q': string)
    requires Unbordered(p) && Independent(p, q) && Independent(p, q')
    requires Occurrences(a + p + b + q + c, p) == 1
    ensures var s := a + p + b + q + c; ReplaceFirst(s, p, p') == ReplaceAll(s, p, p') == a + p' + b + q + c
    ensures var t := a + p + b + q' + c; ReplaceFirst(t, p, p') == ReplaceAll(t, p, p') == a + p' + b + q' + c
  {
    CountAround(a + p + b, q, c, p);
    CountAround(a + p + b, q', c, p);
    SiteBefore(a, p, b, q, c, p', a + p + b + q + c);
    SiteBefore(a, p, b, q', c, p', a + p + b + q' + c);
  }

  lemma SiteBefore(a: string, p: string, b: string, q: string, c: string, w: string, s: string)
    requires s == a + p + b + q + c && Unbordered(p) && Occurrences(s, p) == 1
    ensures ReplaceFirst(s, p, w) == ReplaceAll(s, p, w) == a + w + b + q + c
  {
    var rest := b + q + c;
    assert s == a + p + rest && a + w + rest == a + w + b + q + c;
    ReplacesGivenSite(a, p, rest, w);
  }

  lemma SiteInRight(a: string, p: string, b: string, q: string, c: string, p': string, q': string)
    requires Unbordered(q) && Independent(q, p) && Independent(q, p')
    requires Occurrences(a + p + b + q + c, q) == 1
    ensures var s := a + p + b + q + c; ReplaceFirst(s, q, q') == ReplaceAll(s, q, q') == a + p + b + q' + c
    ensures var t := a + p' + b + q + c; ReplaceFirst(t, q, q') == ReplaceAll(t, q, q') == a + p' + b + q' + c
  {
    assert a + p + b + q + c == a + p + (b + q + c);
    assert a + p' + b + q + c == a + p' + (b + q + c);
    CountAround(a, p, b + q + c, q);
    CountAround(a, p', b + q + c, q);
    ReplacesGivenSite(a + p + b, q, c, q');
    ReplacesGivenSite(a + p' + b, q, c, q');
  }

  // ---------------------------------------------------------------- many edits

  /** Rewriting by edits a needle is apart from leaves its count alone. */
  lemma {:induction false} RewriteKeepsCount(s: string, edits: seq<Edit>, n: Needle)
    requires Harmonious(edits) && ApartFromAll(n, edits)
    requires forall e :: e in edits ==> Occurrences(s, e.find) == 1
    ensures Occurrences(Rewrite(s, edits), n) == Occurrences(s, n)
    decreases |edits|
  {
    if edits != [] {
      var t := ReplaceFirst(s, edits[0].find, edits[0].replace);
      HarmoniousTail(edits);
      OtherCounts(s, edits[0], n);
      forall f | f in edits[1..] ensures Occurrences(t, f.find) == 1 {
        OtherCounts(s, edits[0], f.find);
      }
      RewriteKeepsCount(t, edits[1..], n);
    }
  }

  /** One edit of a list leaves the others as unpatched as they were. */
  lemma TailStaysUnpatched(s: string, edits: seq<Edit>)
    requires Harmonious(edits) && edits != [] && Unpatched(s, edits)
    ensures Unpatched(ReplaceFirst(s, edits[0].find, edits[0].replace), edits[1..])
  {
    HarmoniousTail(edits);
    forall f | f in edits[1..]
      ensures var t := ReplaceFirst(s, edits[0].find, edits[0].replace);
              Occurrences(t, f.find) == 1 && Occurrences(t, f.replace) == 0
    {
      OtherCounts(s, edits[0], f.find);
      OtherCounts(s, edits[0], f.replace);
    }
  }

  /** The whole list turns an unpatched source into a patched one. */
  lemma {:induction false} RewritePatches(s: string, edits: seq<Edit>)
    requires Harmonious(edits) && Clean(edits) && Unpatched(s, edits)
    ensures Patched(Rewrite(s, edits), edits)
    decreases |edits|
  {
    if edits != [] {
      var e := edits[0];
      var t := ReplaceFirst(s, e.find, e.replace);
      HarmoniousTail(edits);
      TailStaysUnpatched(s, edits);
      RewritePatches(t, edits[1..]);
      OwnCounts(s, e);
      RewriteKeepsCount(t, edits[1..], e.find);
      RewriteKeepsCount(t, edits[1..], e.replace);
    }
  }

  /** Undo the edits, last one first. */
  function Undo(t: string, edits: seq<Edit>): string
    decreases |edits|
  {
    if edits == [] then t else
      var rest := Undo(t, edits[1..]);
      ReplaceFirst(rest, edits[0].replace, edits[0].find)
  }

  /** Nothing else of the source is lost: undoing a rewrite gives the source back. */
  lemma {:induction false} RewriteIsReversible(s: string, edits: seq<Edit>)
    requires Harmonious(edits) && Unpatched(s, edits)
    ensures Undo(Rewrite(s, edits), edits) == s
    decreases |edits|
  {
    if edits != [] {
      HarmoniousTail(edits);
      TailStaysUnpatched(s, edits);
      RewriteIsReversible(ReplaceFirst(s, edits[0].find, edits[0].replace), edits[1..]);
      EditIsReversible(s, edits[0]);
    }
  }

  /** An edit apart from a list of edits may be made before or after them. */
  lemma {:induction false} EditPastRewrite(s: string, e: Edit, edits: seq<Edit>)
    requires SelfApart(e) && Harmonious(edits)
    requires forall f :: f in edits ==> Apart(e, f) && Apart(f, e)
    requires Occurrences(s, e.find) == 1
    requires forall f :: f in edits ==> Occurrences(s, f.find) == 1
    ensures Rewrite(ReplaceFirst(s, e.find, e.replace), edits)
         == ReplaceFirst(Rewrite(s, edits), e.find, e.replace)
    decreases |edits|
  {
    if edits != [] {
      var f := edits[0];
      HarmoniousTail(edits);
      var t := ReplaceFirst(s, f.find, f.replace);
      OtherCounts(s, f, e.find);
      forall g | g in edits[1..] ensures Occurrences(t, g.find) == 1 {
        OtherCounts(s, f, g.find);
      }
      EditsCommute(s, e, f.find, f.replace);
      EditPastRewrite(t, e, edits[1..]);
    }
  }
}
