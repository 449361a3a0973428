/**
 The participant-arity patcher: one group per page action, after rewinding the body an earlier
 version of the patcher left behind.
 */
module ArityPatcher {
  import opened Wrappers
  import opened Text
  import opened Edits
  import opened GroupPatcher

  datatype Action = Action(name: string, find: Needle, replace: Needle, legacy: Needle) {
    /** The earlier version already left the current body: nothing to rewind. */
    predicate Coincides() {
      legacy == replace
    }

    function Current(): Edit {
      Edit(find, replace)
    }

    function Earlier(): Edit {
      Edit(find, legacy)
    }
  }

  function GroupsOf(actions: seq<Action>): seq<Group> {
    if actions == [] then []
    else [Group(actions[0].name, [actions[0].Current()])] + GroupsOf(actions[1..])
  }

  function Normalize(s: string, actions: seq<Action>): string
    decreases |actions|
  {
    if actions == [] then s
    else
      var a := actions[0];
      Normalize(if a.Coincides() then s else ReplaceAll(s, a.legacy, a.find), actions[1..])
  }

  method NormalizeLegacy(original: string, actions: seq<Action>) returns (source: string)
    ensures source == Normalize(original, actions)
  {
    source := original;
    assert actions[0..] == actions;
    for i := 0 to |actions|
      invariant Normalize(original, actions) == Normalize(source, actions[i..])
    {
      assert actions[i..][0] == actions[i] && actions[i..][1..] == actions[i + 1..];
      if !actions[i].Coincides() {
        source := ReplaceAll(source, actions[i].legacy, actions[i].find);
      }
    }
  }

  class GroupChatFile {
    var text: Option<string>

    constructor (text: Option<string>)
      ensures this.text == text
    {
      this.text := text;
    }

    /** `applyParticipantArityPatches`: written once, and only when some group was applied. */
    method Apply(actions: seq<Action>) returns (r: Result<Report, PatchError>)
      modifies this
      ensures r.Ok? <==> old(text).Some? && Resolve(Normalize(old(text).value, actions), GroupsOf(actions)).Some?
      ensures r.Err? ==> text == old(text)
      ensures r.Ok? ==>
                var resolved := Resolve(Normalize(old(text).value, actions), GroupsOf(actions)).value;
                && r.value == resolved.report
                && text == if r.value.applied == [] then old(text) else Some(resolved.source)
    {
      if text.None? {
        return Err(FileMissing);
      }
      var source := NormalizeLegacy(text.value, actions);
      var resolved := ResolveGroups(source, GroupsOf(actions));
      if resolved.Err? {
        return Err(resolved.error);
      }
      if resolved.value.report.applied != [] {
        text := Some(resolved.value.source);
      }
      return Ok(resolved.value.report);
    }
  }

  // ---------------------------------------------------------------- overlap conditions

  ghost predicate Sound(a: Action) {
    && SelfApart(a.Current()) && SelfApart(a.Earlier())
    && Independent(a.find, a.replace) && Independent(a.find, a.legacy)
    && (!a.Coincides() ==> Independent(a.legacy, a.replace))
  }

  ghost predicate Stranger(n: string, a: Action) {
    ApartFrom(n, a.Current()) && Independent(n, a.legacy)
  }

  ghost predicate StrangerToAll(n: string, actions: seq<Action>) {
    forall a :: a in actions ==> Stranger(n, a)
  }

  ghost predicate Strangers(a: Action, b: Action) {
    Stranger(a.find, b) && Stranger(a.replace, b) && Stranger(a.legacy, b)
  }

  ghost predicate Harmony(actions: seq<Action>) {
    && (forall a :: a in actions ==> Sound(a))
    && (forall i, j :: 0 <= i < j < |actions| ==> Strangers(actions[i], actions[j]))
  }

  lemma HarmonyTail(actions: seq<Action>)
    requires Harmony(actions) && actions != []
    ensures Harmony(actions[1..]) && Sound(actions[0])
    ensures var a := actions[0];
            StrangerToAll(a.find, actions[1..]) && StrangerToAll(a.replace, actions[1..])
            && StrangerToAll(a.legacy, actions[1..])
    ensures forall b :: b in actions[1..] ==> Strangers(b, actions[0])
  {
    forall b | b in actions[1..] ensures Strangers(actions[0], b) && Strangers(b, actions[0]) {
      var j :| 0 <= j < |actions[1..]| && actions[1..][j] == b;
      assert Strangers(actions[0], actions[j + 1]);
    }
  }

  /** The edits of one patcher version; `Kept` are those the two versions share. */
  datatype Version = Now | Before | Kept

  function EditsOf(actions: seq<Action>, v: Version): seq<Edit> {
    if actions == [] then []
    else
      var a, rest := actions[0], EditsOf(actions[1..], v);
      if v == Now then [a.Current()] + rest
      else if v == Before then [a.Earlier()] + rest
      else if a.Coincides() then [a.Current()] + rest
      else rest
  }

  /** Rewriting by one version of the edits, one action at a time. */
  lemma RewriteHead(s: string, actions: seq<Action>, v: Version)
    requires actions != []
    ensures var a, tail := actions[0], EditsOf(actions[1..], v);
            Rewrite(s, EditsOf(actions, v)) ==
            if v == Before then Rewrite(ReplaceFirst(s, a.find, a.legacy), tail)
            else if v == Now || a.Coincides() then Rewrite(ReplaceFirst(s, a.find, a.replace), tail)
            else Rewrite(s, tail)
  {
    var a, tail := actions[0], EditsOf(actions[1..], v);
    assert ([a.Current()] + tail)[1..] == tail == ([a.Earlier()] + tail)[1..];
  }

  lemma {:induction false} EditsStayApart(actions: seq<Action>, v: Version, n: string)
    requires StrangerToAll(n, actions)
    ensures ApartFromAll(n, EditsOf(actions, v))
  {
    if actions != [] {
      assert Stranger(n, actions[0]);
      EditsStayApart(actions[1..], v, n);
    }
  }

  lemma {:induction false} EditsApartFrom(actions: seq<Action>, v: Version, a: Action)
    requires forall b :: b in actions ==> Strangers(b, a)
    ensures forall e :: e in EditsOf(actions, v) ==> Apart(e, a.Current()) && Apart(e, a.Earlier())
  {
    if actions != [] {
      assert Strangers(actions[0], a);
      EditsApartFrom(actions[1..], v, a);
    }
  }

  lemma {:induction false} EditsAreHarmonious(actions: seq<Action>, v: Version)
    requires Harmony(actions)
    ensures Harmonious(EditsOf(actions, v)) && Clean(EditsOf(actions, v))
  {
    if actions != [] {
      var a, rest := actions[0], EditsOf(actions[1..], v);
      HarmonyTail(actions);
      EditsAreHarmonious(actions[1..], v);
      EditsStayApart(actions[1..], v, a.find);
      EditsStayApart(actions[1..], v, a.replace);
      EditsStayApart(actions[1..], v, a.legacy);
      ConsHarmonious(a.Current(), rest);
      ConsHarmonious(a.Earlier(), rest);
    }
  }

  lemma ConsHarmonious(e: Edit, rest: seq<Edit>)
    requires SelfApart(e) && Harmonious(rest) && ApartFromAll(e.find, rest) && ApartFromAll(e.replace, rest)
    ensures Harmonious([e] + rest)
  {
    var all := [e] + rest;
    forall i, j | 0 <= i < j < |all| ensures Apart(all[i], all[j]) {
      if i == 0 {
        assert all[j] in rest;
      } else {
        assert Apart(rest[i - 1], rest[j - 1]);
      }
    }
  }

  lemma {:induction false} AllEditsOfGroups(actions: seq<Action>)
    ensures AllEdits(GroupsOf(actions)) == EditsOf(actions, Now)
  {
    if actions != [] {
      AllEditsOfGroups(actions[1..]);
      assert GroupsOf(actions)[1..] == GroupsOf(actions[1..]);
    }
  }

  // ---------------------------------------------------------------- pristine sources

  /** The upstream file: each find once, and no trace of either version of the patcher. */
  ghost predicate Pristine(s: string, actions: seq<Action>) {
    forall a :: a in actions ==>
      Occurrences(s, a.find) == 1 && Occurrences(s, a.replace) == 0 && Occurrences(s, a.legacy) == 0
  }

  lemma {:induction false} PristineIsUnpatched(s: string, actions: seq<Action>, v: Version)
    requires Pristine(s, actions)
    ensures Unpatched(s, EditsOf(actions, v))
  {
    if actions != [] {
      PristineIsUnpatched(s, actions[1..], v);
    }
  }

  lemma TailStaysPristine(s: string, actions: seq<Action>, e: Edit)
    requires Harmony(actions) && actions != [] && Pristine(s, actions)
    requires e == actions[0].Current() || e == actions[0].Earlier()
    ensures Pristine(ReplaceFirst(s, e.find, e.replace), actions[1..])
  {
    HarmonyTail(actions);
    var t := ReplaceFirst(s, e.find, e.replace);
    forall b | b in actions[1..]
      ensures Occurrences(t, b.find) == 1 && Occurrences(t, b.replace) == 0 && Occurrences(t, b.legacy) == 0
    {
      assert Strangers(b, actions[0]) && b in actions;
      OtherCounts(s, e, b.find);
      OtherCounts(s, e, b.replace);
      OtherCounts(s, e, b.legacy);
    }
  }

  /** What the head action needs to move past the rewriting of the others. */
  lemma HeadPastTail(s: string, actions: seq<Action>, e: Edit, v: Version)
    requires Harmony(actions) && actions != [] && Pristine(s, actions)
    requires e == actions[0].Current() || e == actions[0].Earlier()
    ensures var rest := EditsOf(actions[1..], v);
            && Rewrite(ReplaceFirst(s, e.find, e.replace), rest) == ReplaceFirst(Rewrite(s, rest), e.find, e.replace)
            && Occurrences(Rewrite(s, rest), e.find) == 1 && Occurrences(Rewrite(s, rest), e.replace) == 0
  {
    var tail, rest := actions[1..], EditsOf(actions[1..], v);
    HarmonyTail(actions);
    EditsAreHarmonious(tail, v);
    PristineIsUnpatched(s, tail, v);
    EditsApartFrom(tail, v, actions[0]);
    EditsStayApart(tail, v, e.find);
    EditsStayApart(tail, v, e.replace);
    forall f | f in rest ensures Apart(e, f) && Apart(f, e) {
    }
    EditPastRewrite(s, e, rest);
    RewriteKeepsCount(s, rest, e.find);
    RewriteKeepsCount(s, rest, e.replace);
  }

  // ---------------------------------------------------------------- the upgrade is exact

  /** Rewinding a legacy tree leaves the pristine source with only the shared edits in place. */
  lemma {:induction false} NormalizeUndoesLegacy(s: string, actions: seq<Action>)
    requires Harmony(actions) && Pristine(s, actions)
    ensures Normalize(Rewrite(s, EditsOf(actions, Before)), actions) == Rewrite(s, EditsOf(actions, Kept))
    decreases |actions|
  {
    if actions != [] {
      var a, tail := actions[0], actions[1..];
      var e := a.Earlier();
      HarmonyTail(actions);
      TailStaysPristine(s, actions, e);
      RewriteHead(s, actions, Before);
      RewriteHead(s, actions, Kept);
      if a.Coincides() {
        NormalizeUndoesLegacy(ReplaceFirst(s, e.find, e.replace), tail);
      } else {
        HeadPastTail(s, actions, e, Before);
        EditIsReversible(Rewrite(s, EditsOf(tail, Before)), e);
        NormalizeUndoesLegacy(s, tail);
      }
    }
  }

  function NamesWhere(actions: seq<Action>, coinciding: bool): seq<string> {
    if actions == [] then []
    else if actions[0].Coincides() == coinciding then [actions[0].name] + NamesWhere(actions[1..], coinciding)
    else NamesWhere(actions[1..], coinciding)
  }

  function Note(done: Report, name: string, skip: bool): Report {
    if skip then done.(skipped := done.skipped + [name]) else done.(applied := done.applied + [name])
  }

  /** The report after every action was skipped where its bodies coincide and applied elsewhere. */
  function Tally(done: Report, actions: seq<Action>): Report
    decreases |actions|
  {
    if actions == [] then done
    else Tally(Note(done, actions[0].name, actions[0].Coincides()), actions[1..])
  }

  /** The report after every action was applied. */
  function TallyAll(done: Report, actions: seq<Action>): Report
    decreases |actions|
  {
    if actions == [] then done else TallyAll(Note(done, actions[0].name, false), actions[1..])
  }

  lemma {:induction false} TallyNames(done: Report, actions: seq<Action>)
    ensures Tally(done, actions).applied == done.applied + NamesWhere(actions, false)
    ensures Tally(done, actions).skipped == done.skipped + NamesWhere(actions, true)
    decreases |actions|
  {
    if actions != [] {
      TallyNames(Note(done, actions[0].name, actions[0].Coincides()), actions[1..]);
    }
  }

  lemma {:induction false} TallyAllNames(done: Report, actions: seq<Action>)
    ensures TallyAll(done, actions) == Report(done.applied + Names(GroupsOf(actions)), done.skipped)
    decreases |actions|
  {
    if actions != [] {
      var name, tail := actions[0].name, actions[1..];
      TallyAllNames(Note(done, name, false), tail);
      assert GroupsOf(actions)[1..] == GroupsOf(tail);
      assert done.applied + [name] + Names(GroupsOf(tail)) == done.applied + ([name] + Names(GroupsOf(tail)));
    }
  }

  /** One step of `ResolveFrom` on the group of the first action. */
  lemma ResolveHead(s: string, done: Report, actions: seq<Action>)
    requires actions != []
    ensures var e, rest := actions[0].Current(), GroupsOf(actions[1..]);
            && (Occurrences(s, e.find) == 0 && Occurrences(s, e.replace) == 1 ==>
                  ResolveFrom(s, done, GroupsOf(actions)) == ResolveFrom(s, Note(done, actions[0].name, true), rest))
            && (Occurrences(s, e.find) == 1 && Occurrences(s, e.replace) == 0 ==>
                  ResolveFrom(s, done, GroupsOf(actions))
                  == ResolveFrom(ReplaceFirst(s, e.find, e.replace), Note(done, actions[0].name, false), rest))
  {
    var e := actions[0].Current();
    assert GroupsOf(actions)[0].edits == [e] && GroupsOf(actions)[1..] == GroupsOf(actions[1..]);
    OneEdit(s, e);
  }

  /** From the rewound tree the groups resolve to the fully patched pristine source. */
  lemma {:induction false} ResolveRewound(s: string, actions: seq<Action>, done: Report)
    requires Harmony(actions) && Pristine(s, actions)
    ensures ResolveFrom(Rewrite(s, EditsOf(actions, Kept)), done, GroupsOf(actions))
         == Some(Resolution(Rewrite(s, EditsOf(actions, Now)), Tally(done, actions)))
    decreases |actions|
  {
    if actions != [] {
      var a, tail := actions[0], actions[1..];
      var e, rest := a.Current(), EditsOf(tail, Kept);
      HarmonyTail(actions);
      TailStaysPristine(s, actions, e);
      HeadPastTail(s, actions, e, Kept);
      OwnCounts(Rewrite(s, rest), e);
      RewriteHead(s, actions, Kept);
      RewriteHead(s, actions, Now);
      ResolveHead(Rewrite(s, EditsOf(actions, Kept)), done, actions);
      ResolveRewound(ReplaceFirst(s, e.find, e.replace), tail, Note(done, a.name, a.Coincides()));
    }
  }

  lemma OneEdit(s: string, e: Edit)
    ensures Patched(s, [e]) <==> Occurrences(s, e.find) == 0 && Occurrences(s, e.replace) == 1
    ensures Unpatched(s, [e]) <==> Occurrences(s, e.find) == 1 && Occurrences(s, e.replace) == 0
    ensures Rewrite(s, [e]) == ReplaceFirst(s, e.find, e.replace)
  {
    assert e in [e];
  }

  /** A pristine source gets every group. */
  lemma {:induction false} ResolvePristine(s: string, actions: seq<Action>, done: Report)
    requires Harmony(actions) && Pristine(s, actions)
    ensures ResolveFrom(s, done, GroupsOf(actions))
         == Some(Resolution(Rewrite(s, EditsOf(actions, Now)), TallyAll(done, actions)))
    decreases |actions|
  {
    if actions != [] {
      var e := actions[0].Current();
      HarmonyTail(actions);
      TailStaysPristine(s, actions, e);
      RewriteHead(s, actions, Now);
      ResolveHead(s, done, actions);
      ResolvePristine(ReplaceFirst(s, e.find, e.replace), actions[1..], Note(done, actions[0].name, false));
    }
  }

  /** Patching a pristine source applies every group and rewinds nothing. */
  lemma PristineIsPatchedWhole(s: string, actions: seq<Action>)
    requires Harmony(actions) && Pristine(s, actions)
    ensures Resolve(Normalize(s, actions), GroupsOf(actions))
         == Some(Resolution(Rewrite(s, EditsOf(actions, Now)), Report(Names(GroupsOf(actions)), [])))
  {
    NoLegacyLeftToRewind(s, actions);
    ResolvePristine(s, actions, Report([], []));
    TallyAllNames(Report([], []), actions);
    assert [] + Names(GroupsOf(actions)) == Names(GroupsOf(actions));
  }

  /**
   Upgrading is exact: for every pristine source, patching what the earlier version made of it gives
   the very text that patching the pristine source gives. The actions whose bodies coincide are
   skipped, the others applied.
   */
  lemma UpgradeIsExact(s: string, actions: seq<Action>)
    requires Harmony(actions) && Pristine(s, actions)
    ensures var upgraded := Resolve(Normalize(Rewrite(s, EditsOf(actions, Before)), actions), GroupsOf(actions));
            var clean := Resolve(Normalize(s, actions), GroupsOf(actions));
            && upgraded.Some? && clean.Some? && upgraded.value.source == clean.value.source
            && upgraded.value.report == Report(NamesWhere(actions, false), NamesWhere(actions, true))
  {
    PristineIsPatchedWhole(s, actions);
    NormalizeUndoesLegacy(s, actions);
    ResolveRewound(s, actions, Report([], []));
    TallyNames(Report([], []), actions);
    assert [] + NamesWhere(actions, false) == NamesWhere(actions, false);
    assert [] + NamesWhere(actions, true) == NamesWhere(actions, true);
  }

  // ---------------------------------------------------------------- no silent rewind, idempotent

  lemma {:induction false} NormalizeKeepsCount(s: string, actions: seq<Action>, n: Needle)
    requires StrangerToAll(n, actions)
    ensures Occurrences(Normalize(s, actions), n) == Occurrences(s, n)
    decreases |actions|
  {
    if actions != [] {
      var a := actions[0];
      assert Stranger(n, a);
      if a.Coincides() {
        NormalizeKeepsCount(s, actions[1..], n);
      } else {
        IndependentDiffer(n, a.legacy);
        CountThroughReplaceAll(s, a.legacy, a.find, n);
        NormalizeKeepsCount(ReplaceAll(s, a.legacy, a.find), actions[1..], n);
      }
    }
  }

  /** A rewind that changed anything shows: some find is back. */
  lemma {:induction false} RewindShows(s: string, actions: seq<Action>) returns (a: Action)
    requires Harmony(actions) && Normalize(s, actions) != s
    ensures a in actions && Occurrences(Normalize(s, actions), a.find) > 0
    decreases |actions|
  {
    a := actions[0];
    HarmonyTail(actions);
    var t := if a.Coincides() then s else ReplaceAll(s, a.legacy, a.find);
    if t == s {
      a := RewindShows(s, actions[1..]);
    } else {
      if !Contains(s, a.legacy) { NothingToReplace(s, a.legacy, a.find); }
      ReplacementShows(s, a.legacy, a.find);
      AbsentMeansZero(t, a.find);
      NormalizeKeepsCount(t, actions[1..], a.find);
    }
  }

  /** When nothing was applied, and so nothing written, nothing had been rewound either. */
  lemma NoSilentRewind(s: string, actions: seq<Action>)
    requires Harmony(actions)
    requires var r := Resolve(Normalize(s, actions), GroupsOf(actions)); r.Some? && r.value.report.applied == []
    ensures Normalize(s, actions) == s
  {
    if Normalize(s, actions) != s {
      var a := RewindShows(s, actions);
      IsAppliedMeansStandDown(Normalize(s, actions), GroupsOf(actions));
      var i := GroupIndex(actions, a);
      assert Patched(Normalize(s, actions), GroupsOf(actions)[i].edits);
      OneEdit(Normalize(s, actions), a.Current());
      assert false;
    }
  }

  lemma {:induction false} GroupIndex(actions: seq<Action>, a: Action) returns (i: nat)
    requires a in actions
    ensures i < |GroupsOf(actions)| && GroupsOf(actions)[i].edits == [a.Current()]
  {
    if a == actions[0] {
      i := 0;
    } else {
      var j := GroupIndex(actions[1..], a);
      i := j + 1;
    }
  }

  lemma {:induction false} NormalizeRemovesLegacy(s: string, actions: seq<Action>)
    requires Harmony(actions)
    ensures forall a :: a in actions && !a.Coincides() ==> Occurrences(Normalize(s, actions), a.legacy) == 0
    decreases |actions|
  {
    if actions != [] {
      var a := actions[0];
      HarmonyTail(actions);
      var t := if a.Coincides() then s else ReplaceAll(s, a.legacy, a.find);
      NormalizeRemovesLegacy(t, actions[1..]);
      if !a.Coincides() {
        IndependentIsSymmetric(a.find, a.legacy);
        CountThroughReplaceAll(s, a.legacy, a.find, a.legacy);
        NormalizeKeepsCount(t, actions[1..], a.legacy);
      }
    }
  }

  lemma {:induction false} NoLegacyLeftToRewind(s: string, actions: seq<Action>)
    requires forall a :: a in actions && !a.Coincides() ==> Occurrences(s, a.legacy) == 0
    ensures Normalize(s, actions) == s
    decreases |actions|
  {
    if actions != [] {
      RewindOfNothing(s, actions[0]);
      NoLegacyLeftToRewind(s, actions[1..]);
    }
  }

  lemma RewindOfNothing(s: string, a: Action)
    requires !a.Coincides() ==> Occurrences(s, a.legacy) == 0
    ensures (if a.Coincides() then s else ReplaceAll(s, a.legacy, a.find)) == s
  {
    if !a.Coincides() {
      AbsentMeansZero(s, a.legacy);
      NothingToReplace(s, a.legacy, a.find);
    }
  }

  /** The legacy body of an action shares no character with any site the groups rewrite. */
  lemma LegacyApartFromEdits(actions: seq<Action>, a: Action)
    requires Harmony(actions) && a in actions && !a.Coincides()
    ensures ApartFromAll(a.legacy, EditsOf(actions, Now))
    decreases |actions|
  {
    HarmonyTail(actions);
    if a == actions[0] {
      IndependentIsSymmetric(a.find, a.legacy);
      EditsStayApart(actions[1..], Now, a.legacy);
    } else {
      LegacyApartFromEdits(actions[1..], a);
      assert Strangers(a, actions[0]);
    }
  }

  /** For every source an apply does not refuse, a second apply rewinds nothing, applies nothing and writes nothing. */
  lemma ArityApplyIsIdempotent(s: string, actions: seq<Action>)
    requires Harmony(actions)
    requires Resolve(Normalize(s, actions), GroupsOf(actions)).Some?
    ensures var t := Resolve(Normalize(s, actions), GroupsOf(actions)).value.source;
            && Normalize(t, actions) == t
            && Resolve(Normalize(t, actions), GroupsOf(actions))
               == Some(Resolution(t, Report([], Names(GroupsOf(actions)))))
  {
    var n, groups := Normalize(s, actions), GroupsOf(actions);
    var t := Resolve(n, groups).value.source;
    AllEditsOfGroups(actions);
    EditsAreHarmonious(actions, Now);
    NormalizeRemovesLegacy(s, actions);
    forall a | a in actions && !a.Coincides() ensures Occurrences(t, a.legacy) == 0 {
      LegacyApartFromEdits(actions, a);
      ResolveKeepsCount(n, Report([], []), groups, a.legacy);
    }
    NoLegacyLeftToRewind(t, actions);
    ApplyIsIdempotent(n, groups);
  }

  // ---------------------------------------------------------------- the startup guard

  /** The guard counts current bodies alone. A file that cannot be read counts as applied. */
  predicate ArityIsApplied(text: Option<string>, actions: seq<Action>) {
    text.Some? ==> forall a :: a in actions ==> Occurrences(text.value, a.replace) == 1
  }

  predicate NothingLeftOver(s: string, actions: seq<Action>) {
    forall a :: a in actions ==> Occurrences(s, a.find) == 0 && (a.Coincides() || Occurrences(s, a.legacy) == 0)
  }

  /** An apply stands down exactly when the guard holds and no upstream or legacy body is left over. */
  lemma StandsDownIffAppliedAndClean(s: string, actions: seq<Action>)
    requires Harmony(actions)
    ensures var r := Resolve(Normalize(s, actions), GroupsOf(actions));
            r.Some? && r.value.report.applied == []
            <==> ArityIsApplied(Some(s), actions) && NothingLeftOver(s, actions)
    ensures ArityIsApplied(None, actions)
  {
    var groups := GroupsOf(actions);
    PatchedGroupwise(s, actions);
    NormalizeRemovesLegacy(s, actions);
    IsAppliedMeansStandDown(Normalize(s, actions), groups);
    if Resolve(Normalize(s, actions), groups).Some?
       && Resolve(Normalize(s, actions), groups).value.report.applied == [] {
      NoSilentRewind(s, actions);
    }
    if NothingLeftOver(s, actions) {
      NoLegacyLeftToRewind(s, actions);
    }
  }

  lemma {:induction false} PatchedGroupwise(s: string, actions: seq<Action>)
    ensures AllPatched(s, GroupsOf(actions))
       <==> forall a :: a in actions ==> Occurrences(s, a.find) == 0 && Occurrences(s, a.replace) == 1
  {
    if actions != [] {
      var tail := actions[1..];
      PatchedGroupwise(s, tail);
      OneEdit(s, actions[0].Current());
      assert GroupsOf(actions) == [Group(actions[0].name, [actions[0].Current()])] + GroupsOf(tail);
      assert actions == [actions[0]] + tail;
    }
  }

  lemma {:induction false} NormalizeKeepsReplacements(s: string, actions: seq<Action>, all: seq<Action>)
    requires Harmony(all) && forall a :: a in actions ==> a in all
    ensures forall a :: a in all ==> Occurrences(Normalize(s, actions), a.replace) == Occurrences(s, a.replace)
    decreases |actions|
  {
    if actions != [] {
      var b := actions[0];
      var t := if b.Coincides() then s else ReplaceAll(s, b.legacy, b.find);
      forall a | a in all ensures Occurrences(t, a.replace) == Occurrences(s, a.replace) {
        if !b.Coincides() {
          ReplacementApart(all, a, b);
          IndependentDiffer(a.replace, b.legacy);
          CountThroughReplaceAll(s, b.legacy, b.find, a.replace);
        }
      }
      NormalizeKeepsReplacements(t, actions[1..], all);
    }
  }

  /** No current body shares a character with a find, or with a legacy body that is rewound. */
  lemma ReplacementApart(actions: seq<Action>, a: Action, b: Action)
    requires Harmony(actions) && a in actions && b in actions
    ensures Independent(a.replace, b.find)
    ensures !b.Coincides() ==> Independent(a.replace, b.legacy)
  {
    if a == b {
      IndependentIsSymmetric(a.find, a.replace);
      if !b.Coincides() { IndependentIsSymmetric(b.legacy, b.replace); }
    } else {
      var i :| 0 <= i < |actions| && actions[i] == a;
      var j :| 0 <= j < |actions| && actions[j] == b;
      if i < j {
        assert Strangers(actions[i], actions[j]);
      } else {
        assert Strangers(actions[j], actions[i]);
        IndependentIsSymmetric(b.find, a.replace);
        IndependentIsSymmetric(b.legacy, a.replace);
      }
    }
  }

  /** With every current body in place, the loop either skips a group or refuses. */
  lemma {:induction false} NothingToApply(s: string, done: Report, actions: seq<Action>)
    requires forall a :: a in actions ==> Occurrences(s, a.replace) == 1
    requires ResolveFrom(s, done, GroupsOf(actions)).Some?
    ensures AllPatched(s, GroupsOf(actions))
    decreases |actions|
  {
    if actions != [] {
      var a := actions[0];
      OneEdit(s, a.Current());
      ResolveHead(s, done, actions);
      assert GroupsOf(actions) == [Group(a.name, [a.Current()])] + GroupsOf(actions[1..]);
      NothingToApply(s, Note(done, a.name, true), actions[1..]);
    }
  }

  /**
   On a file that reads as applied, an apply never writes: it stands down, or throws exactly when
   something is left over.
   */
  lemma GuardedApplyRefusesIff(s: string, actions: seq<Action>)
    requires Harmony(actions) && ArityIsApplied(Some(s), actions)
    ensures Resolve(Normalize(s, actions), GroupsOf(actions)).None? <==> !NothingLeftOver(s, actions)
  {
    var n, groups := Normalize(s, actions), GroupsOf(actions);
    StandsDownIffAppliedAndClean(s, actions);
    NormalizeKeepsReplacements(s, actions, actions);
    if Resolve(n, groups).Some? {
      NothingToApply(n, Report([], []), actions);
      IsAppliedMeansStandDown(n, groups);
    }
  }

  /**
   The guard alone is not enough: one more find at the end of any file that reads as applied goes
   unseen, and an apply throws.
   */
  lemma GuardMissesLeftovers(s: string, actions: seq<Action>, a: Action)
    requires Harmony(actions) && a in actions && ArityIsApplied(Some(s), actions)
    ensures ArityIsApplied(Some(s + a.find), actions)
    ensures Resolve(Normalize(s + a.find, actions), GroupsOf(actions)).None?
  {
    var t := s + a.find;
    assert t == s + a.find + "";
    forall b | b in actions ensures Occurrences(t, b.replace) == 1 {
      ReplacementApart(actions, b, a);
      CountAround(s, a.find, "", b.replace);
      AbsentMeansZero("", b.replace);
    }
    CountOwn(s, a.find, "");
    GuardedApplyRefusesIff(t, actions);
  }
}
