/**
 JavaScript string search and rewriting, as the source patchers use it: `indexOf`, `split`, `join`,
 and `replace` with a plain replacement. What a rewrite does to the number of occurrences of another
 needle depends only on whether the two can overlap.
 */
module Text {
  predicate At(s: string, n: string, i: int) {
    0 <= i && i + |n| <= |s| && s[i..i + |n|] == n
  }

  ghost predicate Contains(s: string, n: string) {
    exists i :: At(s, n, i)
  }

  /** First occurrence at or after `from`, or -1. */
  function IndexFrom(s: string, n: string, from: nat): (i: int)
    requires from <= |s|
    ensures i == -1 || (from <= i && At(s, n, i))
    ensures forall j :: from <= j && At(s, n, j) ==> i != -1 && i <= j
    decreases |s| - from
  {
    if At(s, n, from) then from
    else if from == |s| then -1
    else IndexFrom(s, n, from + 1)
  }

  function IndexOf(s: string, n: string): (i: int)
    ensures i == -1 || At(s, n, i)
    ensures forall j :: At(s, n, j) ==> 0 <= i <= j
    ensures i == -1 <==> !Contains(s, n)
  {
    IndexFrom(s, n, 0)
  }

  function Split(s: string, n: string): (parts: seq<string>)
    requires n != ""
    ensures |parts| >= 1
    decreases |s|
  {
    var i := IndexOf(s, n);
    if i == -1 then [s] else [s[..i]] + Split(s[i + |n|..], n)
  }

  function Join(parts: seq<string>, glue: string): string
    requires |parts| >= 1
  {
    if |parts| == 1 then parts[0] else parts[0] + glue + Join(parts[1..], glue)
  }

  function Occurrences(s: string, n: string): nat
    requires n != ""
  {
    |Split(s, n)| - 1
  }

  /** `replace` with a string needle and a replacement free of '$' patterns: the first site only. */
  function ReplaceFirst(s: string, n: string, with: string): string {
    var i := IndexOf(s, n);
    if i == -1 then s else s[..i] + with + s[i + |n|..]
  }

  function ReplaceAll(s: string, n: string, with: string): string
    requires n != ""
  {
    Join(Split(s, n), with)
  }

  // ---------------------------------------------------------------- overlap

  /** A non-empty suffix of `p` is a prefix of `q`. */
  ghost predicate Borders(p: string, q: string) {
    exists k :: 0 < k <= |p| && k <= |q| && p[|p| - k..] == q[..k]
  }

  /** The two needles can never share a character of a source. */
  ghost predicate Independent(p: string, q: string) {
    && p != "" && q != ""
    && !Borders(p, q) && !Borders(q, p) && !Contains(p, q) && !Contains(q, p)
  }

  /** No proper non-empty prefix is also a suffix, so two sites of `p` never overlap. */
  ghost predicate Unbordered(p: string) {
    && p != ""
    && forall k :: 0 < k < |p| ==> p[|p| - k..] != p[..k]
  }

  lemma AtSub(s: string, n: string, i: int, lo: int, hi: int)
    requires 0 <= lo <= i && i + |n| <= hi <= |s|
    ensures At(s, n, i) <==> At(s[lo..hi], n, i - lo)
  {
    var inner, outer := s[lo..hi][i - lo..i - lo + |n|], s[i..i + |n|];
    assert forall k :: 0 <= k < |n| ==> inner[k] == outer[k];
    assert inner == outer;
  }

  /** Sites of independent needles are disjoint. */
  lemma SitesApart(s: string, p: string, q: string, i: int, j: int)
    requires Independent(p, q) && At(s, p, i) && At(s, q, j)
    ensures i + |p| <= j || j + |q| <= i
  {
    if i <= j < i + |p| {
      Overlap(s, p, q, i, j);
    } else if j <= i < j + |q| {
      Overlap(s, q, p, j, i);
    }
  }

  lemma Overlap(s: string, p: string, q: string, i: int, j: int)
    requires At(s, p, i) && At(s, q, j) && i <= j < i + |p| && q != ""
    ensures Contains(p, q) || Borders(p, q)
  {
    if j + |q| <= i + |p| {
      AtSub(s, q, j, i, i + |p|);
      assert At(p, q, j - i);
    } else {
      var k := i + |p| - j;
      assert p[|p| - k..] == s[j..i + |p|] == q[..k];
    }
  }

  lemma OwnSitesApart(s: string, p: string, i: int, j: int)
    requires Unbordered(p) && At(s, p, i) && At(s, p, j) && i < j
    ensures i + |p| <= j
  {
    if j < i + |p| {
      OwnOverlap(s, p, i, j);
    }
  }

  lemma OwnOverlap(s: string, p: string, i: int, j: int)
    requires At(s, p, i) && At(s, p, j) && i < j < i + |p|
    ensures var k := i + |p| - j; p[|p| - k..] == p[..k]
  {
    var k := i + |p| - j;
    assert p[|p| - k..] == s[j..i + |p|] == p[..k];
  }

  // ---------------------------------------------------------------- counting

  lemma AbsentMeansZero(s: string, n: string)
    requires n != ""
    ensures Occurrences(s, n) == 0 <==> !Contains(s, n)
  {
  }

  lemma CountStep(s: string, n: string, i: nat)
    requires n != "" && IndexOf(s, n) == i
    ensures i + |n| <= |s| && Occurrences(s, n) == 1 + Occurrences(s[i + |n|..], n)
  {
  }

  /** The first site of `n` in a + p + b when `a` holds one, and no site of `n` straddles into `p`. */
  lemma FirstInHead(a: string, rest: string, n: string)
    requires n != "" && Contains(a, n)
    requires forall j :: At(a + rest, n, j) ==> j + |n| <= |a| || |a| <= j
    ensures IndexOf(a + rest, n) == IndexOf(a, n)
  {
    var s := a + rest;
    assert s[0..|a|] == a;
    var i := IndexOf(a, n);
    AtSub(s, n, i, 0, |a|);
    var first := IndexOf(s, n);
    assert At(s, n, i);
    AtSub(s, n, first, 0, |a|);
  }

  /** Text in front that holds no site, and lets none straddle, only shifts the first site. */
  lemma FirstInTail(head: string, b: string, n: string)
    requires n != ""
    requires forall j :: At(head + b, n, j) ==> |head| <= j
    ensures IndexOf(head + b, n) == if IndexOf(b, n) == -1 then -1 else |head| + IndexOf(b, n)
  {
    var s := head + b;
    assert s[|head|..|s|] == b;
    forall j | |head| <= j && j + |n| <= |s| ensures At(s, n, j) <==> At(b, n, j - |head|) {
      AtSub(s, n, j, |head|, |s|);
    }
    if IndexOf(b, n) != -1 {
      assert At(s, n, |head| + IndexOf(b, n));
    }
  }

  /** Around a site of an independent needle, occurrences add up. */
  lemma {:induction false} CountAround(a: string, p: string, b: string, n: string)
    requires Independent(n, p)
    ensures Occurrences(a + p + b, n) == Occurrences(a, n) + Occurrences(b, n)
    decreases |a|
  {
    var s := a + p + b;
    assert s == a + (p + b) && s[|a|..|a| + |p|] == p;
    forall j | At(s, n, j) ensures j + |n| <= |a| || |a| + |p| <= j {
      SitesApart(s, n, p, j, |a|);
    }
    if Contains(a, n) {
      var i := IndexOf(a, n);
      FirstInHead(a, p + b, n);
      CountStep(s, n, i);
      CountStep(a, n, i);
      assert s[i + |n|..] == a[i + |n|..] + p + b;
      CountAround(a[i + |n|..], p, b, n);
    } else {
      NoSiteBefore(a, p + b, n);
      FirstInTail(a + p, b, n);
      CountTail(s, b, n, |a + p|);
    }
  }

  /** With no site inside `a` and none straddling its end, every site starts past it. */
  lemma NoSiteBefore(a: string, rest: string, n: string)
    requires n != "" && !Contains(a, n)
    ensures forall j :: At(a + rest, n, j) && j + |n| <= |a| ==> false
  {
    forall j | At(a + rest, n, j) && j + |n| <= |a| ensures false {
      assert (a + rest)[0..|a|] == a;
      AtSub(a + rest, n, j, 0, |a|);
    }
  }

  /** Texts that agree past their first sites hold equally many. */
  lemma CountSameRest(s: string, i: nat, b: string, k: nat, n: string)
    requires n != "" && IndexOf(s, n) == i && IndexOf(b, n) == k
    requires s[i + |n|..] == b[k + |n|..]
    ensures Occurrences(s, n) == Occurrences(b, n)
  {
    CountStep(b, n, k);
    CountStep(s, n, i);
  }

  lemma CountTail(s: string, b: string, n: string, shift: nat)
    requires n != "" && shift <= |s| && s[shift..] == b
    requires IndexOf(s, n) == if IndexOf(b, n) == -1 then -1 else shift + IndexOf(b, n)
    ensures Occurrences(s, n) == Occurrences(b, n)
  {
    var k := IndexOf(b, n);
    if k == -1 {
      AbsentMeansZero(s, n);
      AbsentMeansZero(b, n);
    } else {
      DropTwice(s, shift, k + |n|);
      CountSameRest(s, shift + k, b, k, n);
    }
  }

  lemma DropTwice(s: string, i: nat, k: nat)
    requires i + k <= |s|
    ensures s[i..][k..] == s[i + k..]
  {
  }

  lemma HeadSites(a: string, p: string, k: nat, n: string)
    requires k <= |p| && Independent(n, p)
    ensures forall j :: At(a + p[..k], n, j) ==> j + |n| <= |a|
  {
    var s, whole := a + p[..k], a + p;
    assert whole[0..|s|] == s && whole[|a|..|a| + |p|] == p;
    forall j | At(s, n, j) ensures j + |n| <= |a| {
      AtSub(whole, n, j, 0, |s|);
      SitesApart(whole, n, p, j, |a|);
    }
  }

  /** A text behind `a` that holds no part of a site adds none. */
  lemma {:induction false} CountHead(a: string, x: string, n: string)
    requires n != "" && forall j :: At(a + x, n, j) ==> j + |n| <= |a|
    ensures Occurrences(a + x, n) == Occurrences(a, n)
    decreases |a|
  {
    if Contains(a, n) {
      var i := IndexOf(a, n);
      FirstInHead(a, x, n);
      CountStep(a + x, n, i);
      CountStep(a, n, i);
      RestSites(a, x, n, i + |n|);
      CountHead(a[i + |n|..], x, n);
    } else {
      NoSiteBefore(a, x, n);
      AbsentMeansZero(a, n);
      AbsentMeansZero(a + x, n);
    }
  }

  lemma RestSites(a: string, x: string, n: string, from: nat)
    requires from <= |a| && forall j :: At(a + x, n, j) ==> j + |n| <= |a|
    ensures (a + x)[from..] == a[from..] + x
    ensures forall j :: At(a[from..] + x, n, j) ==> j + |n| <= |a[from..]|
  {
    var s := a + x;
    assert s[from..|s|] == s[from..] == a[from..] + x;
    forall j | At(a[from..] + x, n, j) ensures j + |n| <= |a[from..]| {
      AtSub(s, n, from + j, from, |s|);
    }
  }

  /** A needle that cannot overlap `p` gains no site from a beginning of `p` put behind `a`. */
  lemma CountHeadOf(a: string, p: string, k: nat, n: string)
    requires k <= |p| && Independent(n, p)
    ensures Occurrences(a + p[..k], n) == Occurrences(a, n)
  {
    HeadSites(a, p, k, n);
    CountHead(a, p[..k], n);
  }

  /** Nor from an end of `p` put in front of `b`. */
  lemma CountTailOf(p: string, k: nat, b: string, n: string)
    requires k <= |p| && Independent(n, p)
    ensures Occurrences(p[k..] + b, n) == Occurrences(b, n)
  {
    var s, whole := p[k..] + b, p + b;
    forall j | At(s, n, j) ensures |p[k..]| <= j {
      assert whole[k..|whole|] == s && whole[0..|p|] == p;
      AtSub(whole, n, k + j, k, |whole|);
      SitesApart(whole, n, p, k + j, 0);
    }
    FirstInTail(p[k..], b, n);
    CountTail(s, b, n, |p[k..]|);
  }

  /** The site in hand is the first one when nothing before it holds another. */
  lemma FirstOwn(a: string, n: string, b: string)
    requires Unbordered(n) && !Contains(a, n)
    ensures IndexOf(a + n + b, n) == |a|
  {
    var s := a + n + b;
    assert s == a + (n + b) && s[|a|..|a| + |n|] == n && At(s, n, |a|);
    NoSiteBefore(a, n + b, n);
    var first := IndexOf(s, n);
    if first < |a| { OwnSitesApart(s, n, first, |a|); }
  }

  /** A site in front of the one in hand stays the first, and what follows it has the same form. */
  lemma StepToOwn(a: string, n: string, b: string, i: nat)
    requires Unbordered(n) && IndexOf(a, n) == i
    ensures i + |n| <= |a| && IndexOf(a + n + b, n) == i
    ensures (a + n + b)[i + |n|..] == a[i + |n|..] + n + b
  {
    var s := a + (n + b);
    assert s == a + n + b && s[|a|..|a| + |n|] == n && At(s, n, |a|);
    forall j | At(s, n, j) ensures j + |n| <= |a| || |a| <= j {
      if j < |a| { OwnSitesApart(s, n, j, |a|); }
    }
    FirstInHead(a, n + b, n);
  }

  /** A site of an unbordered needle is one more occurrence than the text around it holds. */
  lemma {:induction false} CountOwn(a: string, n: string, b: string)
    requires Unbordered(n)
    ensures Occurrences(a + n + b, n) == Occurrences(a, n) + 1 + Occurrences(b, n)
    decreases |a|
  {
    var s := a + n + b;
    if Contains(a, n) {
      var i := IndexOf(a, n);
      StepToOwn(a, n, b, i);
      CountStep(s, n, i);
      CountStep(a, n, i);
      CountOwn(a[i + |n|..], n, b);
    } else {
      FirstOwn(a, n, b);
      CountStep(s, n, |a|);
      assert s[|a| + |n|..] == b;
      AbsentMeansZero(a, n);
    }
  }

  /** A single occurrence cuts the source in two halves that hold none. */
  lemma SingleSite(s: string, n: string) returns (a: string, b: string)
    requires n != "" && Occurrences(s, n) == 1
    ensures s == a + n + b && IndexOf(s, n) == |a|
    ensures !Contains(a, n) && !Contains(b, n)
  {
    var i := IndexOf(s, n);
    CountStep(s, n, i);
    a, b := s[..i], s[i + |n|..];
    if Contains(a, n) {
      var j :| At(a, n, j);
      assert s[0..i] == a;
      AtSub(s, n, j, 0, i);
    }
    AbsentMeansZero(b, n);
  }

  /** The pieces of a text hold no needle the text does not hold. */
  lemma PiecesHoldNoMore(a: string, p: string, b: string, n: string)
    requires n != "" && !Contains(a + p + b, n)
    ensures !Contains(a, n) && !Contains(b, n)
  {
    var s := a + p + b;
    assert s[0..|a|] == a && s[|a| + |p|..|s|] == b;
    if Contains(a, n) {
      var j :| At(a, n, j);
      AtSub(s, n, j, 0, |a|);
    }
    if Contains(b, n) {
      var j :| At(b, n, j);
      AtSub(s, n, |a| + |p| + j, |a| + |p|, |s|);
    }
  }

  /** Where an unbordered needle stands alone, both ways of replacing it touch that site and no other. */
  lemma ReplacesSite(a: string, n: string, b: string, with: string)
    requires Unbordered(n) && !Contains(a, n) && !Contains(b, n)
    ensures Occurrences(a + n + b, n) == 1
    ensures ReplaceFirst(a + n + b, n, with) == a + with + b == ReplaceAll(a + n + b, n, with)
  {
    CountOwn(a, n, b);
    AbsentMeansZero(a, n);
    AbsentMeansZero(b, n);
    FirstOwn(a, n, b);
    assert (a + n + b)[..|a|] == a && (a + n + b)[|a| + |n|..] == b;
    JoinPair(a, b, with);
  }

  lemma JoinPair(a: string, b: string, with: string)
    ensures Join([a] + [b], with) == a + with + b
  {
    assert ([a] + [b])[1..] == [b];
  }

  /** The same, read off a count: the one site an unbordered needle has is the one in hand. */
  lemma ReplacesGivenSite(a: string, n: string, b: string, with: string)
    requires Unbordered(n) && Occurrences(a + n + b, n) == 1
    ensures !Contains(a, n) && !Contains(b, n)
    ensures ReplaceFirst(a + n + b, n, with) == a + with + b == ReplaceAll(a + n + b, n, with)
  {
    CountOwn(a, n, b);
    AbsentMeansZero(a, n);
    AbsentMeansZero(b, n);
    ReplacesSite(a, n, b, with);
  }

  /** Two independent needles that each occur once stand one after the other. */
  lemma TwoSites(s: string, p: string, q: string) returns (a: string, b: string, c: string, pFirst: bool)
    requires Independent(p, q) && Occurrences(s, p) == 1 && Occurrences(s, q) == 1
    ensures s == if pFirst then a + p + b + q + c else a + q + b + p + c
  {
    var x, y := SingleSite(s, p);
    var i, j := |x|, IndexOf(s, q);
    var u, v := SingleSite(s, q);
    SitesApart(s, p, q, i, j);
    pFirst := i + |p| <= j;
    if pFirst {
      assert s[i + |p|..|s|] == y;
      AtSub(s, q, j, i + |p|, |s|);
      a := x;
      b, c := CutAt(y, q, j - i - |p|);
      assert s == a + p + (b + q + c) == a + p + b + q + c;
    } else {
      assert s[0..i] == x;
      AtSub(s, q, j, 0, i);
      a, b := CutAt(x, q, j);
      c := y;
      assert s == (a + q + b) + p + c == a + q + b + p + c;
    }
  }

  lemma CutAt(s: string, n: string, i: int) returns (a: string, b: string)
    requires At(s, n, i)
    ensures s == a + n + b
  {
    a, b := s[..i], s[i + |n|..];
  }

  lemma NothingToReplace(s: string, n: string, with: string)
    requires n != "" && !Contains(s, n)
    ensures ReplaceAll(s, n, with) == s
  {
  }

  /** Replacing every site of `p` by `w` leaves the count of a needle independent of both alone. */
  lemma {:induction false} CountThroughReplaceAll(s: string, p: string, w: string, n: string)
    requires p != "" && Independent(n, w) && (n == p || Independent(n, p))
    ensures Occurrences(ReplaceAll(s, p, w), n) == if n == p then 0 else Occurrences(s, n)
    decreases |s|
  {
    if Contains(s, p) {
      var i := IndexOf(s, p);
      var a, b := s[..i], s[i + |p|..];
      assert s == a + p + b;
      assert ReplaceAll(s, p, w) == a + w + ReplaceAll(b, p, w);
      CountThroughReplaceAll(b, p, w, n);
      CountAround(a, w, ReplaceAll(b, p, w), n);
      if n == p {
        FirstSiteHead(s, p, i);
      } else {
        CountAround(a, p, b, n);
      }
    } else {
      NothingToReplace(s, p, w);
    }
  }

  lemma FirstSiteHead(s: string, n: string, i: int)
    requires n != "" && IndexOf(s, n) == i && i != -1
    ensures Occurrences(s[..i], n) == 0
  {
    if Contains(s[..i], n) {
      var j :| At(s[..i], n, j);
      assert s[0..i] == s[..i];
      AtSub(s, n, j, 0, i);
    }
  }

  /** A text in which `p` was replaced somewhere holds the replacement. */
  lemma ReplacementShows(s: string, p: string, w: string)
    requires p != "" && Contains(s, p)
    ensures Contains(ReplaceAll(s, p, w), w)
  {
    var i := IndexOf(s, p);
    var t := ReplaceAll(s, p, w);
    var rest := ReplaceAll(s[i + |p|..], p, w);
    assert t == s[..i] + w + rest;
    assert t[i..i + |w|] == w;
    assert At(t, w, i);
  }
}
