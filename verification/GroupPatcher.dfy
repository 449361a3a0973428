/**
 The apply loop the status and participant-arity patchers share: independent groups, each applied
 whole, skipped when already present, or refused. The file is written once, after every group has
 been resolved.
 */
module GroupPatcher {
  import opened Wrappers
  import opened Text
  import opened Edits

  datatype Group = Group(name: string, edits: seq<Edit>)

  datatype Report = Report(applied: seq<string>, skipped: seq<string>)

  datatype PatchError = FileMissing | UnsupportedShape(group: string)

  /** The rewritten source and what was done to it; None when some group has an unknown shape. */
  datatype Resolution = Resolution(source: string, report: Report)

  /** Resolve `groups` on a source where `done` has already happened. */
  function ResolveFrom(s: string, done: Report, groups: seq<Group>): Option<Resolution>
    decreases |groups|
  {
    if groups == [] then Some(Resolution(s, done))
    else
      var g := groups[0];
      if Patched(s, g.edits) then
        ResolveFrom(s, done.(skipped := done.skipped + [g.name]), groups[1..])
      else if Unpatched(s, g.edits) then
        ResolveFrom(Rewrite(s, g.edits), done.(applied := done.applied + [g.name]), groups[1..])
      else None
  }

  function Resolve(s: string, groups: seq<Group>): Option<Resolution> {
    ResolveFrom(s, Report([], []), groups)
  }

  function Names(groups: seq<Group>): seq<string> {
    if groups == [] then [] else [groups[0].name] + Names(groups[1..])
  }

  predicate AllPatched(s: string, groups: seq<Group>) {
    forall g :: g in groups ==> Patched(s, g.edits)
  }

  function AllEdits(groups: seq<Group>): seq<Edit> {
    if groups == [] then [] else groups[0].edits + AllEdits(groups[1..])
  }

  /** The source loop: resolve group after group, on the source the earlier ones left. */
  method ResolveGroups(original: string, groups: seq<Group>) returns (r: Result<Resolution, PatchError>)
    ensures r.Ok? ==> Resolve(original, groups) == Some(r.value)
    ensures r.Err? ==> Resolve(original, groups) == None && r.error.UnsupportedShape?
  {
    var source := original;
    var applied, skipped := [], [];
    assert groups[0..] == groups;
    for i := 0 to |groups|
      invariant Resolve(original, groups) == ResolveFrom(source, Report(applied, skipped), groups[i..])
    {
      var group := groups[i];
      assert groups[i..][0] == group && groups[i..][1..] == groups[i + 1..];
      if Patched(source, group.edits) {
        skipped := skipped + [group.name];
      } else if Unpatched(source, group.edits) {
        source := Rewrite(source, group.edits);
        applied := applied + [group.name];
      } else {
        return Err(UnsupportedShape(group.name));
      }
    }
    return Ok(Resolution(source, Report(applied, skipped)));
  }

  /** The installed file. None when there is no such file. */
  class SourceFile {
    var text: Option<string>

    constructor (text: Option<string>)
      ensures this.text == text
    {
      this.text := text;
    }

    /** `applyStatusPatches`: all or nothing, and no write when nothing was applied. */
    method Apply(groups: seq<Group>) returns (r: Result<Report, PatchError>)
      modifies this
      ensures r.Ok? <==> old(text).Some? && Resolve(old(text).value, groups).Some?
      ensures r.Err? ==> text == old(text)
      ensures r.Ok? ==> r.value == Resolve(old(text).value, groups).value.report
      ensures r.Ok? ==> text == if r.value.applied == [] then old(text)
                                else Some(Resolve(old(text).value, groups).value.source)
      ensures Harmonious(AllEdits(groups)) && old(text).Some? ==>
                (r.Ok? <==> forall g :: g in groups ==> KnownShape(old(text).value, g))
      ensures Harmonious(AllEdits(groups)) && Clean(AllEdits(groups)) && r.Ok? ==>
                && text.Some?
                && forall g, e :: g in groups && e in g.edits ==>
                     Occurrences(text.value, e.find) == 0 && Occurrences(text.value, e.replace) == 1
    {
      if text.Some? && Harmonious(AllEdits(groups)) {
        ApplyInOccurrences(text.value, groups);
      }
      if text.None? {
        return Err(FileMissing);
      }
      var resolved := ResolveGroups(text.value, groups);
      if resolved.Err? {
        return Err(resolved.error);
      }
      if resolved.value.report.applied != [] {
        text := Some(resolved.value.source);
      }
      return Ok(resolved.value.report);
    }
  }

  /** All of the group is in the file, or none of it with every find once. */
  predicate KnownShape(s: string, g: Group) {
    || (forall e :: e in g.edits ==> Occurrences(s, e.find) == 0 && Occurrences(s, e.replace) == 1)
    || (forall e :: e in g.edits ==> Occurrences(s, e.find) == 1 && Occurrences(s, e.replace) == 0)
  }

  lemma ApplyInOccurrences(s: string, groups: seq<Group>)
    requires Harmonious(AllEdits(groups))
    ensures Resolve(s, groups).Some? <==> forall g :: g in groups ==> KnownShape(s, g)
    ensures Clean(AllEdits(groups)) && Resolve(s, groups).Some? ==>
              forall g, e :: g in groups && e in g.edits ==>
                var t := Resolve(s, groups).value.source;
                Occurrences(t, e.find) == 0 && Occurrences(t, e.replace) == 1
    ensures Resolve(s, groups).Some? && Resolve(s, groups).value.report.applied == [] ==>
              Resolve(s, groups).value.source == s
  {
    ResolvesIffKnown(s, Report([], []), groups);
    IsAppliedMeansStandDown(s, groups);
    if Clean(AllEdits(groups)) && Resolve(s, groups).Some? {
      ResolvePatchesAll(s, groups);
    }
  }

  /** The startup guard. A file that cannot be read counts as applied. */
  predicate IsApplied(text: Option<string>, groups: seq<Group>) {
    text.Some? ==> AllPatched(text.value, groups)
  }

  // ---------------------------------------------------------------- stand-down

  lemma {:induction false} StandDownFrom(s: string, done: Report, groups: seq<Group>)
    requires AllPatched(s, groups)
    ensures ResolveFrom(s, done, groups) == Some(Resolution(s, done.(skipped := done.skipped + Names(groups))))
    decreases |groups|
  {
    if groups == [] {
      assert done.skipped + Names(groups) == done.skipped;
    } else {
      var g, rest := groups[0], groups[1..];
      StandDownFrom(s, done.(skipped := done.skipped + [g.name]), rest);
      assert done.skipped + [g.name] + Names(rest) == done.skipped + Names(groups);
    }
  }

  lemma {:induction false} NothingAppliedFrom(s: string, done: Report, groups: seq<Group>)
    requires ResolveFrom(s, done, groups).Some?
    ensures var applied := ResolveFrom(s, done, groups).value.report.applied;
            |applied| >= |done.applied| && (|applied| == |done.applied| ==> AllPatched(s, groups))
    decreases |groups|
  {
    if groups != [] {
      var g, rest := groups[0], groups[1..];
      assert groups == [g] + rest;
      if Patched(s, g.edits) {
        NothingAppliedFrom(s, done.(skipped := done.skipped + [g.name]), rest);
      } else {
        NothingAppliedFrom(Rewrite(s, g.edits), done.(applied := done.applied + [g.name]), rest);
      }
    }
  }

  /** The guard holds exactly when an apply would skip every group and leave the file alone. */
  lemma IsAppliedMeansStandDown(s: string, groups: seq<Group>)
    ensures IsApplied(Some(s), groups)
       <==> Resolve(s, groups).Some? && Resolve(s, groups).value.report.applied == []
    ensures IsApplied(Some(s), groups) ==> Resolve(s, groups) == Some(Resolution(s, Report([], Names(groups))))
    ensures IsApplied(None, groups)
  {
    if AllPatched(s, groups) {
      StandDownFrom(s, Report([], []), groups);
      assert [] + Names(groups) == Names(groups);
    }
    if Resolve(s, groups).Some? {
      NothingAppliedFrom(s, Report([], []), groups);
    }
  }

  // ---------------------------------------------------------------- what is accepted

  /** Names of the groups that are, or are not, patched in `s`. */
  function NamesPatched(s: string, groups: seq<Group>, patched: bool): seq<string> {
    if groups == [] then []
    else
      (if Patched(s, groups[0].edits) == patched then [groups[0].name] else [])
      + NamesPatched(s, groups[1..], patched)
  }

  /** Rewriting one group leaves every other group patched or unpatched as it was. */
  lemma RewriteKeepsShapes(s: string, head: seq<Edit>, g: Group, tail: seq<Edit>)
    requires Harmonious(head + tail) && Unpatched(s, head) && forall e :: e in g.edits ==> e in tail
    ensures Patched(Rewrite(s, head), g.edits) == Patched(s, g.edits)
    ensures Unpatched(Rewrite(s, head), g.edits) == Unpatched(s, g.edits)
    ensures KnownShape(Rewrite(s, head), g) == KnownShape(s, g)
  {
    HarmoniousParts(head, tail);
    var t := Rewrite(s, head);
    forall f | f in g.edits
      ensures Occurrences(t, f.find) == Occurrences(s, f.find)
      ensures Occurrences(t, f.replace) == Occurrences(s, f.replace)
    {
      forall e | e in head ensures ApartFrom(f.find, e) && ApartFrom(f.replace, e) {
        assert ApartFrom(e.find, f) && ApartFrom(e.replace, f);
        SymmetricApart(e, f);
      }
      RewriteKeepsCount(s, head, f.find);
      RewriteKeepsCount(s, head, f.replace);
    }
  }

  lemma SymmetricApart(e: Edit, f: Edit)
    requires ApartFrom(e.find, f) && ApartFrom(e.replace, f)
    ensures ApartFrom(f.find, e) && ApartFrom(f.replace, e)
  {
    IndependentIsSymmetric(e.find, f.find);
    IndependentIsSymmetric(e.find, f.replace);
    IndependentIsSymmetric(e.replace, f.find);
    IndependentIsSymmetric(e.replace, f.replace);
  }

  lemma {:induction false} EditsOfMember(groups: seq<Group>, g: Group)
    requires g in groups
    ensures forall e :: e in g.edits ==> e in AllEdits(groups)
  {
    if g != groups[0] {
      EditsOfMember(groups[1..], g);
    }
  }

  lemma {:induction false} NamesAgree(s: string, t: string, groups: seq<Group>, patched: bool)
    requires forall g :: g in groups ==> Patched(s, g.edits) == Patched(t, g.edits)
    ensures NamesPatched(s, groups, patched) == NamesPatched(t, groups, patched)
  {
    if groups != [] {
      NamesAgree(s, t, groups[1..], patched);
    }
  }

  /** Resolving the first group leaves the shapes of the others as they were. */
  lemma FirstKeepsShapes(s: string, groups: seq<Group>)
    requires groups != [] && Harmonious(AllEdits(groups)) && Unpatched(s, groups[0].edits)
    ensures Harmonious(AllEdits(groups[1..]))
    ensures forall h :: h in groups[1..] ==>
              && KnownShape(Rewrite(s, groups[0].edits), h) == KnownShape(s, h)
              && Patched(Rewrite(s, groups[0].edits), h.edits) == Patched(s, h.edits)
  {
    var g, rest := groups[0], groups[1..];
    HarmoniousParts(g.edits, AllEdits(rest));
    forall h | h in rest
      ensures KnownShape(Rewrite(s, g.edits), h) == KnownShape(s, h)
      ensures Patched(Rewrite(s, g.edits), h.edits) == Patched(s, h.edits)
    {
      EditsOfMember(rest, h);
      RewriteKeepsShapes(s, g.edits, h, AllEdits(rest));
    }
  }

  /** The source and the report after the first group. */
  function AfterFirst(s: string, done: Report, g: Group): Resolution {
    if Patched(s, g.edits) then Resolution(s, done.(skipped := done.skipped + [g.name]))
    else Resolution(Rewrite(s, g.edits), done.(applied := done.applied + [g.name]))
  }

  lemma ResolveFirst(s: string, done: Report, groups: seq<Group>)
    requires groups != []
    ensures var g, next := groups[0], AfterFirst(s, done, groups[0]);
            ResolveFrom(s, done, groups) ==
            if KnownShape(s, g) then ResolveFrom(next.source, next.report, groups[1..]) else None
  {
  }

  /**
   The groups resolve exactly when each of them is wholly in the source, or wholly absent with every
   find once, however many edits it has.
   */
  lemma {:induction false} ResolvesIffKnown(s: string, done: Report, groups: seq<Group>)
    requires Harmonious(AllEdits(groups))
    ensures ResolveFrom(s, done, groups).Some? <==> forall g :: g in groups ==> KnownShape(s, g)
    decreases |groups|
  {
    if groups != [] {
      var g, rest := groups[0], groups[1..];
      var next := AfterFirst(s, done, g);
      assert groups == [g] + rest;
      ResolveFirst(s, done, groups);
      HarmoniousParts(g.edits, AllEdits(rest));
      if Unpatched(s, g.edits) { FirstKeepsShapes(s, groups); }
      if KnownShape(s, g) { ResolvesIffKnown(next.source, next.report, rest); }
    }
  }

  /** Then exactly the absent groups are applied and the others skipped, each in order. */
  lemma {:induction false} ReportsByShape(s: string, done: Report, groups: seq<Group>)
    requires Harmonious(AllEdits(groups)) && ResolveFrom(s, done, groups).Some?
    ensures ResolveFrom(s, done, groups).value.report ==
            Report(done.applied + NamesPatched(s, groups, false), done.skipped + NamesPatched(s, groups, true))
    decreases |groups|
  {
    if groups == [] {
      assert done.applied + [] == done.applied && done.skipped + [] == done.skipped;
    } else {
      var g, rest := groups[0], groups[1..];
      var next := AfterFirst(s, done, g);
      ResolveFirst(s, done, groups);
      HarmoniousParts(g.edits, AllEdits(rest));
      if !Patched(s, g.edits) { FirstKeepsShapes(s, groups); }
      NamesAgree(s, next.source, rest, true);
      NamesAgree(s, next.source, rest, false);
      ReportsByShape(next.source, next.report, rest);
      NamesSplit(s, done, groups);
    }
  }

  lemma NamesSplit(s: string, done: Report, groups: seq<Group>)
    requires groups != []
    ensures var g, patched := groups[0], Patched(s, groups[0].edits);
            && (patched ==> done.skipped + [g.name] + NamesPatched(s, groups[1..], true)
                            == done.skipped + NamesPatched(s, groups, true)
                            && NamesPatched(s, groups, false) == NamesPatched(s, groups[1..], false))
            && (!patched ==> done.applied + [g.name] + NamesPatched(s, groups[1..], false)
                             == done.applied + NamesPatched(s, groups, false)
                             && NamesPatched(s, groups, true) == NamesPatched(s, groups[1..], true))
  {
  }

  // ---------------------------------------------------------------- all or nothing, idempotent

  /** Resolving groups a needle is apart from leaves its count alone. */
  lemma {:induction false} ResolveKeepsCount(s: string, done: Report, groups: seq<Group>, n: Needle)
    requires Harmonious(AllEdits(groups)) && ApartFromAll(n, AllEdits(groups))
    requires ResolveFrom(s, done, groups).Some?
    ensures Occurrences(ResolveFrom(s, done, groups).value.source, n) == Occurrences(s, n)
    decreases |groups|
  {
    if groups != [] {
      var g, rest := groups[0], groups[1..];
      HarmoniousParts(g.edits, AllEdits(rest));
      if Patched(s, g.edits) {
        ResolveKeepsCount(s, done.(skipped := done.skipped + [g.name]), rest, n);
      } else {
        RewriteKeepsCount(s, g.edits, n);
        ResolveKeepsCount(Rewrite(s, g.edits), done.(applied := done.applied + [g.name]), rest, n);
      }
    }
  }

  /** What earlier groups patched, later groups leave patched. */
  lemma ResolveKeepsPatched(s: string, done: Report, edits: seq<Edit>, groups: seq<Group>)
    requires Harmonious(AllEdits(groups)) && ResolveFrom(s, done, groups).Some? && Patched(s, edits)
    requires forall e :: e in edits ==>
               ApartFromAll(e.find, AllEdits(groups)) && ApartFromAll(e.replace, AllEdits(groups))
    ensures Patched(ResolveFrom(s, done, groups).value.source, edits)
  {
    var t := ResolveFrom(s, done, groups).value.source;
    forall e | e in edits ensures Occurrences(t, e.find) == 0 && Occurrences(t, e.replace) == 1 {
      ResolveKeepsCount(s, done, groups, e.find);
      ResolveKeepsCount(s, done, groups, e.replace);
    }
  }

  lemma {:induction false} ResolveFromPatchesAll(s: string, done: Report, groups: seq<Group>)
    requires Harmonious(AllEdits(groups)) && Clean(AllEdits(groups))
    requires ResolveFrom(s, done, groups).Some?
    ensures AllPatched(ResolveFrom(s, done, groups).value.source, groups)
    decreases |groups|
  {
    if groups != [] {
      var g, rest := groups[0], groups[1..];
      var t := if Patched(s, g.edits) then s else Rewrite(s, g.edits);
      var done' := if Patched(s, g.edits) then done.(skipped := done.skipped + [g.name])
                   else done.(applied := done.applied + [g.name]);
      HarmoniousParts(g.edits, AllEdits(rest));
      if !Patched(s, g.edits) {
        RewritePatches(s, g.edits);
      }
      ResolveFromPatchesAll(t, done', rest);
      ResolveKeepsPatched(t, done', g.edits, rest);
    }
  }

  /** For every source: an apply that does not refuse leaves every group patched. */
  lemma ResolvePatchesAll(s: string, groups: seq<Group>)
    requires Harmonious(AllEdits(groups)) && Clean(AllEdits(groups))
    requires Resolve(s, groups).Some?
    ensures AllPatched(Resolve(s, groups).value.source, groups)
  {
    ResolveFromPatchesAll(s, Report([], []), groups);
  }

  /** Applying again writes nothing and skips every group. */
  lemma ApplyIsIdempotent(s: string, groups: seq<Group>)
    requires Harmonious(AllEdits(groups)) && Clean(AllEdits(groups))
    requires Resolve(s, groups).Some?
    ensures var t := Resolve(s, groups).value.source;
            IsApplied(Some(t), groups) && Resolve(t, groups) == Some(Resolution(t, Report([], Names(groups))))
  {
    ResolvePatchesAll(s, groups);
    IsAppliedMeansStandDown(Resolve(s, groups).value.source, groups);
  }
}
