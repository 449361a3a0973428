/**
 The ready-sync patcher: one all-or-nothing list of edits. A replacement may contain its own find, so
 finds are counted on the source with the replacements cut out.
 */
module ReadySyncPatcher {
  import opened Wrappers
  import opened Text
  import opened Edits

  datatype Outcome = Skipped | Applied

  datatype PatchError = FileMissing | UnsupportedShape

  /** Finds left once every copy of `site` is cut out. */
  function Residue(s: string, site: Needle, find: Needle): nat {
    Occurrences(ReplaceAll(s, site, ""), find)
  }

  predicate StandsDown(s: string, edits: seq<Edit>) {
    forall e :: e in edits ==> Residue(s, e.replace, e.find) == 0 && Occurrences(s, e.replace) == 1
  }

  predicate Appliable(s: string, edits: seq<Edit>) {
    forall e :: e in edits ==> Residue(s, e.replace, e.find) == 1 && Occurrences(s, e.replace) == 0
  }

  predicate IsApplied(text: Option<string>, edits: seq<Edit>) {
    text.Some? ==>
      forall e :: e in edits ==>
        Occurrences(text.value, e.replace) == 1 && Residue(text.value, e.replace, e.find) == 0
  }

  /** The installed file. None when there is no such file. */
  class SourceFile {
    var text: Option<string>

    constructor (text: Option<string>)
      ensures this.text == text
    {
      this.text := text;
    }

    /** `applyReadySyncPatch`. An error or a stand-down leaves the file alone. */
    method Apply(edits: seq<Edit>) returns (r: Result<Outcome, PatchError>)
      modifies this
      ensures r == Ok(Skipped) <==> old(text).Some? && IsApplied(old(text), edits)
      ensures r == Ok(Applied) <==>
              old(text).Some? && !IsApplied(old(text), edits) && Appliable(old(text).value, edits)
      ensures text == if r == Ok(Applied) then Some(Rewrite(old(text).value, edits)) else old(text)
      ensures r == Ok(Skipped) ==> forall e :: e in edits ==> Occurrences(text.value, e.replace) == 1
      ensures r == Ok(Applied) ==>
                forall e :: e in edits ==>
                  Occurrences(old(text).value, e.find) == 1 && Occurrences(old(text).value, e.replace) == 0
      ensures Harmonious(edits) && r.Ok? ==>
                text.Some? && forall e :: e in edits ==> Occurrences(text.value, e.replace) == 1
      ensures (exists e :: e in edits && old(text).Some?
                 && Occurrences(old(text).value, e.find) == 0 && Occurrences(old(text).value, e.replace) == 0)
              ==> r == Err(UnsupportedShape) && text == old(text)
    {
      if text.Some? {
        ApplyInOccurrences(text.value, edits);
      }
      if text.None? {
        return Err(FileMissing);
      }
      var source := text.value;
      if StandsDown(source, edits) {
        return Ok(Skipped);
      }
      if Appliable(source, edits) {
        var i := 0;
        while i < |edits|
          invariant 0 <= i <= |edits|
          invariant Rewrite(text.value, edits) == Rewrite(source, edits[i..])
          invariant text == old(text)
        {
          assert edits[i..][0] == edits[i] && edits[i..][1..] == edits[i + 1..];
          source := ReplaceFirst(source, edits[i].find, edits[i].replace);
          i := i + 1;
        }
        text := Some(source);
        return Ok(Applied);
      }
      return Err(UnsupportedShape);
    }
  }

  /** A source the patcher takes is one where each find occurs once and no replacement does. */
  lemma AppliableIsUnpatched(s: string, edits: seq<Edit>)
    ensures Appliable(s, edits) <==> Unpatched(s, edits)
  {
    forall e | e in edits && Occurrences(s, e.replace) == 0
      ensures Residue(s, e.replace, e.find) == Occurrences(s, e.find)
    {
      NothingToReplace(s, e.replace, "");
    }
  }

  /** What the three branches mean for the text, in plain occurrences. */
  lemma ApplyInOccurrences(s: string, edits: seq<Edit>)
    ensures Appliable(s, edits) <==>
              forall e :: e in edits ==> Occurrences(s, e.find) == 1 && Occurrences(s, e.replace) == 0
    ensures StandsDown(s, edits) ==> forall e :: e in edits ==> Occurrences(s, e.replace) == 1
    ensures IsApplied(Some(s), edits) <==> StandsDown(s, edits)
    ensures IsApplied(None, edits)
    ensures Harmonious(edits) && Appliable(s, edits) ==>
              forall e :: e in edits ==> Occurrences(Rewrite(s, edits), e.replace) == 1
    ensures (exists e :: e in edits && Occurrences(s, e.find) == 0 && Occurrences(s, e.replace) == 0)
            ==> !StandsDown(s, edits) && !Appliable(s, edits)
  {
    AppliableIsUnpatched(s, edits);
    if Harmonious(edits) && Appliable(s, edits) {
      RewriteSettlesResidues(s, edits);
    }
  }

  // ---------------------------------------------------------------- one edit

  /** After its own edit, what is left without the replacement is what was left without the find. */
  lemma OwnResidue(s: string, e: Edit)
    requires SelfApart(e) && Occurrences(s, e.find) == 1 && Occurrences(s, e.replace) == 0
    ensures var t := ReplaceFirst(s, e.find, e.replace);
            Occurrences(t, e.replace) == 1 && Residue(t, e.replace, e.find) == Residue(s, e.find, e.find)
  {
    var a, b := SingleSite(s, e.find);
    AbsentMeansZero(s, e.replace);
    PiecesHoldNoMore(a, e.find, b, e.replace);
    ReplacesSite(a, e.find, b, e.replace);
    ReplacesSite(a, e.find, b, "");
    ReplacesSite(a, e.replace, b, "");
  }

  /** An edit elsewhere changes neither the site of another edit nor what is left without it. */
  lemma OtherResidue(s: string, e: Edit, site: Needle, find: Needle)
    requires SelfApart(e) && Unbordered(site) && ApartFrom(site, e) && ApartFrom(find, e)
    requires Occurrences(s, e.find) == 1 && Occurrences(s, site) == 1
    ensures var t := ReplaceFirst(s, e.find, e.replace);
            Occurrences(t, site) == 1 && Residue(t, site, find) == Residue(s, site, find)
  {
    OtherCounts(s, e, site);
    IndependentIsSymmetric(site, e.find);
    var a, b, c, eFirst := TwoSites(s, e.find, site);
    if eFirst {
      ResidueRightOf(a, e, b, site, c, find);
    } else {
      ResidueLeftOf(a, e, b, site, c, find);
    }
  }

  lemma ResidueRightOf(a: string, e: Edit, b: string, site: Needle, c: string, find: Needle)
    requires SelfApart(e) && Unbordered(site) && ApartFrom(site, e) && ApartFrom(find, e)
    requires var s := a + e.find + b + site + c; Occurrences(s, e.find) == 1 && Occurrences(s, site) == 1
    ensures var s := a + e.find + b + site + c;
            Residue(ReplaceFirst(s, e.find, e.replace), site, find) == Residue(s, site, find)
  {
    var s, t := a + e.find + b + site + c, a + e.replace + b + site + c;
    ReplacesLeft(a, e, b, site, c);
    OtherCounts(s, e, site);
    CutRight(a, e.find, b, site, c);
    CutRight(a, e.replace, b, site, c);
    CountAround(a, e.find, b + c, find);
    CountAround(a, e.replace, b + c, find);
  }

  lemma ReplacesLeft(a: string, e: Edit, b: string, site: string, c: string)
    requires Unbordered(e.find) && Occurrences(a + e.find + b + site + c, e.find) == 1
    ensures ReplaceFirst(a + e.find + b + site + c, e.find, e.replace) == a + e.replace + b + site + c
  {
    SiteBefore(a, e.find, b, site, c, e.replace, a + e.find + b + site + c);
  }

  lemma CutRight(a: string, p: string, b: string, site: Needle, c: string)
    requires Unbordered(site) && Occurrences(a + p + b + site + c, site) == 1
    ensures ReplaceAll(a + p + b + site + c, site, "") == a + p + (b + c)
  {
    ReplacesGivenSite(a + p + b, site, c, "");
    assert a + p + b + "" + c == a + p + (b + c);
  }

  lemma ResidueLeftOf(a: string, e: Edit, b: string, site: Needle, c: string, find: Needle)
    requires SelfApart(e) && Unbordered(site) && ApartFrom(site, e) && ApartFrom(find, e)
    requires var s := a + site + b + e.find + c; Occurrences(s, e.find) == 1 && Occurrences(s, site) == 1
    ensures var s := a + site + b + e.find + c;
            Residue(ReplaceFirst(s, e.find, e.replace), site, find) == Residue(s, site, find)
  {
    ReplacesGivenSite(a + site + b, e.find, c, e.replace);
    SiteInLeft(a, site, b, e.find, c, "", e.replace);
    CountAround(a + "" + b, e.find, c, find);
    CountAround(a + "" + b, e.replace, c, find);
  }

  // ---------------------------------------------------------------- the list

  lemma {:induction false} RewriteKeepsResidue(s: string, edits: seq<Edit>, site: Needle, find: Needle)
    requires Harmonious(edits) && Unpatched(s, edits) && Unbordered(site) && Occurrences(s, site) == 1
    requires ApartFromAll(site, edits) && ApartFromAll(find, edits)
    ensures var t := Rewrite(s, edits);
            Occurrences(t, site) == 1 && Residue(t, site, find) == Residue(s, site, find)
    decreases |edits|
  {
    if edits != [] {
      HarmoniousTail(edits);
      TailStaysUnpatched(s, edits);
      OtherResidue(s, edits[0], site, find);
      RewriteKeepsResidue(ReplaceFirst(s, edits[0].find, edits[0].replace), edits[1..], site, find);
    }
  }

  lemma {:induction false} RewriteSettlesResidues(s: string, edits: seq<Edit>)
    requires Harmonious(edits) && Unpatched(s, edits)
    ensures forall e :: e in edits ==>
              Occurrences(Rewrite(s, edits), e.replace) == 1
              && Residue(Rewrite(s, edits), e.replace, e.find) == Residue(s, e.find, e.find)
    decreases |edits|
  {
    if edits != [] {
      var e, rest := edits[0], edits[1..];
      var t := ReplaceFirst(s, e.find, e.replace);
      HarmoniousTail(edits);
      TailStaysUnpatched(s, edits);
      OwnResidue(s, e);
      RewriteKeepsResidue(t, rest, e.replace, e.find);
      RewriteSettlesResidues(t, rest);
      forall f | f in rest ensures Residue(t, f.find, f.find) == Residue(s, f.find, f.find) {
        OtherResidue(s, e, f.find, f.find);
      }
    }
  }

  /**
   A successful apply reads as applied, and a second apply stands down, exactly when cutting any one
   find out of the original source would not bring its two sides together into a new find.
   */
  lemma AppliedIffCutsAreClean(s: string, edits: seq<Edit>)
    requires Harmonious(edits) && Appliable(s, edits)
    ensures IsApplied(Some(Rewrite(s, edits)), edits)
       <==> forall e :: e in edits ==> Residue(s, e.find, e.find) == 0
    ensures StandsDown(Rewrite(s, edits), edits) <==> IsApplied(Some(Rewrite(s, edits)), edits)
  {
    AppliableIsUnpatched(s, edits);
    RewriteSettlesResidues(s, edits);
  }

  // ---------------------------------------------------------------- where a second apply throws

  /** The source with a second copy of the find wrapped around the first: cutting that one leaves the other. */
  function Nested(a: string, find: string, k: nat, b: string): string
    requires k <= |find|
  {
    (a + find[..k]) + find + (find[k..] + b)
  }

  /** Nesting adds no site of a needle that cannot overlap the find. */
  lemma NestingKeepsCount(a: string, find: string, k: nat, b: string, n: string)
    requires k <= |find| && Independent(n, find)
    ensures Occurrences(Nested(a, find, k, b), n) == Occurrences(a + find + b, n)
  {
    CountAround(a, find, b, n);
    CountAround(a + find[..k], find, find[k..] + b, n);
    CountHeadOf(a, find, k, n);
    CountTailOf(find, k, b, n);
  }

  /** A stretch of a text whose one site it does not cover holds none. */
  lemma StretchHoldsNoFind(s: string, a: string, find: string, b: string, lo: nat, hi: nat)
    requires s == a + find + b && lo <= hi <= |s| && (lo > |a| || hi < |a| + |find|)
    requires Unbordered(find) && !Contains(a, find) && !Contains(b, find)
    ensures !Contains(s[lo..hi], find)
  {
    if j :| At(s[lo..hi], find, j) {
      AtSub(s, find, lo + j, lo, hi);
      OnlySite(a, find, b, lo + j);
    }
  }

  /** The pieces around the inner copy hold no find of their own. */
  lemma NestingAddsNoFind(a: string, find: string, k: nat, b: string)
    requires Unbordered(find) && 0 < k < |find| && Occurrences(a + find + b, find) == 1
    ensures !Contains(a + find[..k], find) && !Contains(find[k..] + b, find)
    ensures Occurrences(Nested(a, find, k, b), find) == 1
  {
    AloneOnBothSides(a, find, b);
    PiecesHoldNoFind(a + find + b, a, find, k, b, a + find[..k], find[k..] + b);
    AloneMeansOne(a + find[..k], find, find[k..] + b);
  }

  lemma AloneOnBothSides(a: string, find: string, b: string)
    requires Unbordered(find) && Occurrences(a + find + b, find) == 1
    ensures !Contains(a, find) && !Contains(b, find)
  {
    CountOwn(a, find, b);
    AbsentMeansZero(a, find);
    AbsentMeansZero(b, find);
  }

  lemma PiecesHoldNoFind(s: string, a: string, find: string, k: nat, b: string, head: string, tail: string)
    requires s == a + find + b && 0 < k < |find| && head == a + find[..k] && tail == find[k..] + b
    requires Unbordered(find) && !Contains(a, find) && !Contains(b, find)
    ensures !Contains(head, find) && !Contains(tail, find)
  {
    StretchHoldsNoFind(s, a, find, b, 0, |a| + k);
    StretchHoldsNoFind(s, a, find, b, |a| + k, |s|);
    StretchEnds(a, find, k, b);
  }

  lemma StretchEnds(a: string, find: string, k: nat, b: string)
    requires k <= |find|
    ensures (a + find + b)[0..|a| + k] == a + find[..k]
    ensures (a + find + b)[|a| + k..|a + find + b|] == find[k..] + b
  {
  }

  lemma AloneMeansOne(head: string, find: string, tail: string)
    requires Unbordered(find) && !Contains(head, find) && !Contains(tail, find)
    ensures Occurrences(head + find + tail, find) == 1
  {
    AbsentMeansZero(head, find);
    AbsentMeansZero(tail, find);
    CountOwn(head, find, tail);
  }

  /** An unbordered needle with nothing around it stands at one place. */
  lemma OnlySite(a: string, find: string, b: string, j: int)
    requires Unbordered(find) && !Contains(a, find) && !Contains(b, find) && At(a + find + b, find, j)
    ensures j == |a|
  {
    var s := a + find + b;
    assert s[0..|a|] == a && s[|a| + |find|..|s|] == b;
    assert At(s, find, |a|) by { assert s[|a|..|a| + |find|] == find; }
    if j < |a| {
      OwnSitesApart(s, find, j, |a|);
      AtSub(s, find, j, 0, |a|);
    } else if j > |a| {
      OwnSitesApart(s, find, |a|, j);
      AtSub(s, find, j, |a| + |find|, |s|);
    }
  }

  /**
   The replacement does not appear by nesting: it cannot overlap its find, or it is the find with a
   text appended that does not go on as the find does from `k`.
   */
  ghost predicate StaysAbsent(e: Edit, k: nat) {
    || Independent(e.find, e.replace)
    || (e.find < e.replace && k < |e.find| && e.replace[|e.find|] != e.find[k])
  }

  lemma NestingAddsNoReplacement(a: string, e: Edit, k: nat, b: string)
    requires SelfApart(e) && 0 < k < |e.find| && StaysAbsent(e, k)
    requires Occurrences(a + e.find + b, e.find) == 1 && Occurrences(a + e.find + b, e.replace) == 0
    ensures Occurrences(Nested(a, e.find, k, b), e.replace) == 0
  {
    if Independent(e.find, e.replace) {
      IndependentIsSymmetric(e.find, e.replace);
      NestingKeepsCount(a, e.find, k, b, e.replace);
    } else {
      NestingAddsNoFind(a, e.find, k, b);
      NoExtension(a + e.find[..k], e, e.find[k..] + b);
      AbsentMeansZero(Nested(a, e.find, k, b), e.replace);
    }
  }

  /** A replacement that appends to its find would have to stand where the one find does. */
  lemma NoExtension(head: string, e: Edit, tail: string)
    requires Unbordered(e.find) && !Contains(head, e.find) && !Contains(tail, e.find)
    requires e.find < e.replace && tail != ""
    requires e.replace[|e.find|] != tail[0]
    ensures !Contains(head + e.find + tail, e.replace)
  {
    var s := head + e.find + tail;
    assert s[|head| + |e.find|] == tail[0];
    if j :| At(s, e.replace, j) {
      AtPrefix(s, e.find, e.replace, j);
      OnlySite(head, e.find, tail, j);
    }
  }

  lemma AtPrefix(s: string, find: string, longer: string, j: int)
    requires find < longer && At(s, longer, j)
    ensures At(s, find, j) && s[j + |find|] == longer[|find|]
  {
    assert s[j..j + |find|] == s[j..j + |longer|][..|find|];
    assert s[j + |find|] == s[j..j + |longer|][|find|];
  }

  /**
   In every source the patcher takes, wrapping a second copy of one find around the first gives a source
   it also takes, but whose patched form it refuses: there the guard reads unpatched and a second apply throws.
   */
  lemma CutCanCreateFind(a: string, b: string, edits: seq<Edit>, e: Edit, k: nat)
    requires Harmonious(edits) && e in edits && Appliable(a + e.find + b, edits)
    requires 0 < k < |e.find| && StaysAbsent(e, k)
    ensures var s := Nested(a, e.find, k, b);
            && Appliable(s, edits)
            && !IsApplied(Some(Rewrite(s, edits)), edits)
            && !StandsDown(Rewrite(s, edits), edits) && !Appliable(Rewrite(s, edits), edits)
  {
    var s := Nested(a, e.find, k, b);
    NestedIsAppliable(a, b, edits, e, k);
    AppliableIsUnpatched(a + e.find + b, edits);
    AppliableIsUnpatched(s, edits);
    NestingAddsNoFind(a, e.find, k, b);
    CutGivesBack(a, e.find, k, b);
    AppliedIffCutsAreClean(s, edits);
    RewriteSettlesResidues(s, edits);
  }

  lemma CutGivesBack(a: string, find: Needle, k: nat, b: string)
    requires Unbordered(find) && 0 < k < |find|
    requires !Contains(a + find[..k], find) && !Contains(find[k..] + b, find)
    ensures ReplaceAll(Nested(a, find, k, b), find, "") == a + find + b
  {
    ReplacesSite(a + find[..k], find, find[k..] + b, "");
    Unnest(a, find, k, b);
  }

  lemma Unnest(a: string, find: string, k: nat, b: string)
    requires k <= |find|
    ensures (a + find[..k]) + "" + (find[k..] + b) == a + find + b
  {
  }

  lemma NestedIsAppliable(a: string, b: string, edits: seq<Edit>, e: Edit, k: nat)
    requires Harmonious(edits) && e in edits && Appliable(a + e.find + b, edits)
    requires 0 < k < |e.find| && StaysAbsent(e, k)
    ensures Appliable(Nested(a, e.find, k, b), edits)
  {
    var s := Nested(a, e.find, k, b);
    AppliableIsUnpatched(a + e.find + b, edits);
    forall f | f in edits ensures Occurrences(s, f.find) == 1 && Occurrences(s, f.replace) == 0 {
      if f == e {
        NestingAddsNoFind(a, e.find, k, b);
        NestingAddsNoReplacement(a, e, k, b);
      } else {
        OthersAreApart(edits, f, e);
        NestingKeepsCount(a, e.find, k, b, f.find);
        NestingKeepsCount(a, e.find, k, b, f.replace);
      }
    }
    AppliableIsUnpatched(s, edits);
  }

  lemma OthersAreApart(edits: seq<Edit>, f: Edit, e: Edit)
    requires Harmonious(edits) && e in edits && f in edits && f != e
    ensures Independent(f.find, e.find) && Independent(f.replace, e.find)
  {
    var i :| 0 <= i < |edits| && edits[i] == f;
    var j :| 0 <= j < |edits| && edits[j] == e;
    if i < j {
      assert Apart(edits[i], edits[j]);
    } else {
      assert Apart(edits[j], edits[i]);
      IndependentIsSymmetric(e.find, f.find);
      IndependentIsSymmetric(e.find, f.replace);
    }
  }
}
