/**
  `patchContent`: for each role in fixed order and each known pattern of
  that role, if the content includes the pattern, record one change and
  (unless dry-run) replace every occurrence by the role's target.

  `Patch` is the specification, a left fold of `ApplyStep` over the
  flattened pattern table `Steps`; the method `PatchContent` is the
  source's nested loops, proved equal to it.
 */
module ContentPatch {
  import opened Wrappers
  import opened Text
  import opened Catalog

  /** One entry of `changes`, the text `"<ROLE>: <pattern> → <target>"`. */
  datatype Change = Change(role: Role, pattern: string, target: string)

  /** The object `patchContent` returns. */
  datatype PatchResult = PatchResult(patchedContent: string, changeCount: nat, changes: seq<Change>)

  /** One iteration of an inner loop: a pattern of a role, with that role's target. */
  datatype Step = Step(role: Role, pattern: string, target: string)

  function Initial(content: string): PatchResult {
    PatchResult(content, 0, [])
  }

  /** The patterns of one role, each with the given target. */
  function PatternSteps(role: Role, target: string): (steps: seq<Step>)
    ensures |steps| == |KnownPatterns(role)|
    ensures forall k :: 0 <= k < |steps| ==>
              steps[k] == Step(role, KnownPatterns(role)[k], target) && steps[k].pattern != ""
  {
    PatternsNonEmpty(role);
    StepsFor(role, KnownPatterns(role), target)
  }

  /** The given patterns of one role, each with the given target. */
  function StepsFor(role: Role, patterns: seq<string>, target: string): (steps: seq<Step>)
    ensures |steps| == |patterns|
    ensures forall k :: 0 <= k < |steps| ==> steps[k] == Step(role, patterns[k], target)
  {
    seq(|patterns|, k requires 0 <= k < |patterns| => Step(role, patterns[k], target))
  }

  /** The patterns of one role, or none for the assets role when it is unset. */
  function RoleSteps(config: Config, role: Role): (steps: seq<Step>)
    ensures forall k :: 0 <= k < |steps| ==> steps[k].pattern != ""
  {
    if role == Assets && !AssetsEnabled(config) then [] else PatternSteps(role, Target(config, role))
  }

  function StepsOf(config: Config, roles: seq<Role>): (steps: seq<Step>)
    ensures forall k :: 0 <= k < |steps| ==> steps[k].pattern != ""
  {
    if roles == [] then []
    else StepsOf(config, roles[..|roles| - 1]) + RoleSteps(config, roles[|roles| - 1])
  }

  /** Every (role, pattern, target) `patchContent` tries, in order. */
  function Steps(config: Config): (steps: seq<Step>)
    ensures forall k :: 0 <= k < |steps| ==> steps[k].pattern != ""
  {
    StepsOf(config, RoleOrder)
  }

  predicate NonEmptyPatterns(steps: seq<Step>) {
    forall k :: 0 <= k < |steps| ==> steps[k].pattern != ""
  }

  function ChangeOf(st: Step): Change {
    Change(st.role, st.pattern, st.target)
  }

  /** The body of an inner loop. */
  function ApplyStep(r: PatchResult, st: Step, dryRun: bool): PatchResult
    requires st.pattern != ""
  {
    if Contains(r.patchedContent, st.pattern) then
      PatchResult(
        if dryRun then r.patchedContent else ReplaceAll(r.patchedContent, st.pattern, st.target),
        r.changeCount + 1,
        r.changes + [ChangeOf(st)])
    else r
  }

  function Run(r: PatchResult, steps: seq<Step>, dryRun: bool): PatchResult
    requires NonEmptyPatterns(steps)
  {
    if steps == [] then r
    else ApplyStep(Run(r, steps[..|steps| - 1], dryRun), steps[|steps| - 1], dryRun)
  }

  lemma RunSnoc(r: PatchResult, steps: seq<Step>, st: Step, dryRun: bool)
    requires NonEmptyPatterns(steps) && st.pattern != ""
    ensures NonEmptyPatterns(steps + [st])
    ensures Run(r, steps + [st], dryRun) == ApplyStep(Run(r, steps, dryRun), st, dryRun)
  {
    assert (steps + [st])[..|steps|] == steps;
  }

  /** What `patchContent(content, config, dryRun)` returns. */
  function Patch(content: string, config: Config, dryRun: bool): PatchResult {
    Run(Initial(content), Steps(config), dryRun)
  }

  /** `patchContent`: one loop per role, skipping the assets role when it is unset. */
  method PatchContent(content: string, config: Config, dryRun: bool) returns (result: PatchResult)
    ensures result == Patch(content, config, dryRun)
  {
    result := Initial(content);
    for ri := 0 to |RoleOrder|
      invariant result == Run(Initial(content), StepsOf(config, RoleOrder[..ri]), dryRun)
    {
      var role := RoleOrder[ri];
      StepsOfSnoc(config, RoleOrder, ri);
      ghost var before := result;
      if role != Assets || AssetsEnabled(config) {
        PatternsNonEmpty(role);
        result := PatchRole(result, role, KnownPatterns(role), Target(config, role), dryRun);
      }
      RunConcat(Initial(content), StepsOf(config, RoleOrder[..ri]), RoleSteps(config, role), dryRun);
    }
    assert RoleOrder[..|RoleOrder|] == RoleOrder;
  }

  /**
    One role's loop of `patchContent`: for each known pattern of `role`
    that the content includes, push a change, replace it everywhere by
    `target` unless dry-run, and count it.
   */
  method PatchRole(r: PatchResult, role: Role, patterns: seq<string>, target: string, dryRun: bool)
    returns (result: PatchResult)
    requires forall k :: 0 <= k < |patterns| ==> patterns[k] != ""
    ensures result == Run(r, StepsFor(role, patterns, target), dryRun)
  {
    var patchedContent, changeCount, changes := r.patchedContent, r.changeCount, r.changes;
    ghost var steps := StepsFor(role, patterns, target);
    for pi := 0 to |patterns|
      invariant PatchResult(patchedContent, changeCount, changes) == Run(r, steps[..pi], dryRun)
    {
      var pattern := patterns[pi];
      assert steps[..pi + 1] == steps[..pi] + [steps[pi]];
      RunSnoc(r, steps[..pi], steps[pi], dryRun);
      if Contains(patchedContent, pattern) {
        changes := changes + [Change(role, pattern, target)];
        if !dryRun {
          patchedContent := ReplaceAll(patchedContent, pattern, target);
        }
        changeCount := changeCount + 1;
      }
    }
    assert steps[..|patterns|] == steps;
    result := PatchResult(patchedContent, changeCount, changes);
  }

  // ---------------------------------------------------------------------
  // The flattened table

  lemma StepsOfSnoc(config: Config, roles: seq<Role>, i: nat)
    requires i < |roles|
    ensures StepsOf(config, roles[..i + 1]) == StepsOf(config, roles[..i]) + RoleSteps(config, roles[i])
  {
    assert roles[..i + 1][..i] == roles[..i];
  }

  /** The steps are the roles' patterns in the fixed role order. */
  lemma StepsByRole(config: Config)
    ensures Steps(config) == RoleSteps(config, Api) + RoleSteps(config, Auth) + RoleSteps(config, Ws)
                             + RoleSteps(config, Nimbus) + RoleSteps(config, Checkout) + RoleSteps(config, Assets)
  {
    StepsOfSix(config, RoleOrder);
  }

  lemma StepsOfSix(config: Config, o: seq<Role>)
    requires |o| == 6
    ensures StepsOf(config, o) == RoleSteps(config, o[0]) + RoleSteps(config, o[1]) + RoleSteps(config, o[2])
                                  + RoleSteps(config, o[3]) + RoleSteps(config, o[4]) + RoleSteps(config, o[5])
  {
    var r0, r1, r2 := RoleSteps(config, o[0]), RoleSteps(config, o[1]), RoleSteps(config, o[2]);
    var r3, r4, r5 := RoleSteps(config, o[3]), RoleSteps(config, o[4]), RoleSteps(config, o[5]);
    StepsOfSnoc(config, o, 0);
    assert o[..0] == [];
    assert StepsOf(config, o[..1]) == r0;
    StepsOfSnoc(config, o, 1);
    assert StepsOf(config, o[..2]) == r0 + r1;
    StepsOfSnoc(config, o, 2);
    assert StepsOf(config, o[..3]) == r0 + r1 + r2;
    StepsOfSnoc(config, o, 3);
    assert StepsOf(config, o[..4]) == r0 + r1 + r2 + r3;
    StepsOfSnoc(config, o, 4);
    assert StepsOf(config, o[..5]) == r0 + r1 + r2 + r3 + r4;
    StepsOfSnoc(config, o, 5);
    assert o[..6] == o;
  }

  lemma {:induction false} RunConcat(r: PatchResult, a: seq<Step>, b: seq<Step>, dryRun: bool)
    requires NonEmptyPatterns(a) && NonEmptyPatterns(b)
    decreases |b|
    ensures NonEmptyPatterns(a + b)
    ensures Run(r, a + b, dryRun) == Run(Run(r, a, dryRun), b, dryRun)
  {
    assert NonEmptyPatterns(a + b) by {
      forall k | 0 <= k < |a + b| ensures (a + b)[k].pattern != "" {
        if k < |a| { assert (a + b)[k] == a[k]; } else { assert (a + b)[k] == b[k - |a|]; }
      }
    }
    if b == [] {
      assert a + b == a;
    } else {
      var b' := b[..|b| - 1];
      RunConcat(r, a, b', dryRun);
      assert (a + b)[..|a + b| - 1] == a + b';
    }
  }

  /** No pattern of `steps` occurs in `s`. */
  ghost predicate Clean(s: string, steps: seq<Step>) {
    forall k :: 0 <= k < |steps| ==> !Contains(s, steps[k].pattern)
  }

  /** A run over content holding none of its patterns finds and changes nothing. */
  lemma {:induction false} RunOverClean(r: PatchResult, steps: seq<Step>, dryRun: bool)
    requires NonEmptyPatterns(steps)
    requires Clean(r.patchedContent, steps)
    ensures Run(r, steps, dryRun) == r
  {
    if steps != [] {
      RunOverClean(r, steps[..|steps| - 1], dryRun);
    }
  }

  // ---------------------------------------------------------------------
  // Dry run and counting

  lemma {:induction false} DryRunKeeps(r: PatchResult, steps: seq<Step>)
    requires NonEmptyPatterns(steps)
    ensures Run(r, steps, true).patchedContent == r.patchedContent
  {
    if steps != [] {
      DryRunKeeps(r, steps[..|steps| - 1]);
    }
  }

  /** A dry run returns the content it was given. */
  lemma DryRunLeavesContent(content: string, config: Config)
    ensures Patch(content, config, true).patchedContent == content
  {
    DryRunKeeps(Initial(content), Steps(config));
  }

  /**
    The change entries of the steps whose pattern occurs in `content`, one
    per pattern however often it occurs.
   */
  function Found(content: string, steps: seq<Step>): seq<Change> {
    if steps == [] then []
    else Found(content, steps[..|steps| - 1])
         + (if Contains(content, steps[|steps| - 1].pattern) then [ChangeOf(steps[|steps| - 1])] else [])
  }

  lemma {:induction false} DryRunFinds(content: string, steps: seq<Step>)
    requires NonEmptyPatterns(steps)
    ensures Run(Initial(content), steps, true)
            == PatchResult(content, |Found(content, steps)|, Found(content, steps))
  {
    if steps != [] {
      DryRunFinds(content, steps[..|steps| - 1]);
    }
  }

  /**
    A dry run reports exactly the known patterns that occur in the content,
    in table order, one entry and one count each, and changes nothing.
   */
  lemma DryRunReport(content: string, config: Config)
    ensures Patch(content, config, true)
            == PatchResult(content, |Found(content, Steps(config))|, Found(content, Steps(config)))
  {
    DryRunFinds(content, Steps(config));
  }

  lemma {:induction false} FoundBounded(content: string, steps: seq<Step>)
    ensures |Found(content, steps)| <= |steps|
  {
    if steps != [] {
      FoundBounded(content, steps[..|steps| - 1]);
    }
  }

  /**
    The count in a dry run depends only on which patterns occur, not on how
    often: two contents holding the same known patterns get the same report.
   */
  lemma {:induction false} FoundBySet(c1: string, c2: string, steps: seq<Step>)
    requires forall k :: 0 <= k < |steps| ==> (Contains(c1, steps[k].pattern) <==> Contains(c2, steps[k].pattern))
    ensures Found(c1, steps) == Found(c2, steps)
  {
    if steps != [] {
      FoundBySet(c1, c2, steps[..|steps| - 1]);
    }
  }

  lemma {:induction false} RunCounts(r: PatchResult, steps: seq<Step>, dryRun: bool)
    requires NonEmptyPatterns(steps)
    requires r.changeCount == |r.changes|
    ensures |r.changes| <= |Run(r, steps, dryRun).changes|
    ensures Run(r, steps, dryRun).changeCount == |Run(r, steps, dryRun).changes|
    ensures |Run(r, steps, dryRun).changes| <= |r.changes| + |steps|
    ensures Run(r, steps, dryRun).changes[..|r.changes|] == r.changes
  {
    if steps != [] {
      RunCounts(r, steps[..|steps| - 1], dryRun);
    }
  }

  /** The count never drops, and while it stands still the content does too. */
  lemma {:induction false} RunUncounted(r: PatchResult, steps: seq<Step>, dryRun: bool)
    requires NonEmptyPatterns(steps)
    ensures Run(r, steps, dryRun).changeCount >= r.changeCount
    ensures Run(r, steps, dryRun).changeCount == r.changeCount ==> Run(r, steps, dryRun).patchedContent == r.patchedContent
  {
    if steps != [] {
      RunUncounted(r, steps[..|steps| - 1], dryRun);
    }
  }

  /** Content in which no known pattern was found comes back as it was. */
  lemma NoChangeNoRewrite(content: string, config: Config, dryRun: bool)
    ensures Patch(content, config, dryRun).changeCount == 0 ==> Patch(content, config, dryRun).patchedContent == content
  {
    RunUncounted(Initial(content), Steps(config), dryRun);
  }

  /**
    In either mode `changes` has exactly `changeCount` entries, at most one
    per known pattern of the table.
   */
  lemma CountMatchesChanges(content: string, config: Config, dryRun: bool)
    ensures Patch(content, config, dryRun).changeCount == |Patch(content, config, dryRun).changes|
    ensures Patch(content, config, dryRun).changeCount <= |Steps(config)|
  {
    RunCounts(Initial(content), Steps(config), dryRun);
  }

  // ---------------------------------------------------------------------
  // The assets role

  lemma {:induction false} RunAvoidsRole(r: PatchResult, steps: seq<Step>, dryRun: bool, role: Role)
    requires NonEmptyPatterns(steps)
    requires forall k :: 0 <= k < |steps| ==> steps[k].role != role
    requires forall k :: 0 <= k < |r.changes| ==> r.changes[k].role != role
    ensures forall k :: 0 <= k < |Run(r, steps, dryRun).changes| ==> Run(r, steps, dryRun).changes[k].role != role
  {
    if steps != [] {
      RunAvoidsRole(r, steps[..|steps| - 1], dryRun, role);
    }
  }

  /**
    With the assets target unset or empty, no assets pattern is tried or
    reported, and the result is the same as with no assets target at all.
   */
  lemma AssetsSkippedWhenUnset(content: string, config: Config, dryRun: bool)
    requires !AssetsEnabled(config)
    ensures forall k :: 0 <= k < |Steps(config)| ==> Steps(config)[k].role != Assets
    ensures forall k :: 0 <= k < |Patch(content, config, dryRun).changes| ==>
              Patch(content, config, dryRun).changes[k].role != Assets
    ensures Patch(content, config, dryRun) == Patch(content, config.(assetsUrl := None), dryRun)
  {
    StepsOfUnsetAssets(config, RoleOrder);
    StepsOfAvoidAssets(config, RoleOrder);
    RunAvoidsRole(Initial(content), Steps(config), dryRun, Assets);
  }

  /** Without an assets target no step of the given roles is an assets step. */
  lemma {:induction false} StepsOfAvoidAssets(config: Config, roles: seq<Role>)
    requires !AssetsEnabled(config)
    ensures forall k :: 0 <= k < |StepsOf(config, roles)| ==> StepsOf(config, roles)[k].role != Assets
  {
    if roles != [] {
      var init: seq<Step> := StepsOf(config, roles[..|roles| - 1]);
      var last: seq<Step> := RoleSteps(config, roles[|roles| - 1]);
      StepsOfAvoidAssets(config, roles[..|roles| - 1]);
      forall k: int | 0 <= k < |init + last| ensures (init + last)[k].role != Assets {
        if k < |init| { assert (init + last)[k] == init[k]; } else { assert (init + last)[k] == last[k - |init|]; }
      }
    }
  }

  function NoAssets(config: Config): Config {
    config.(assetsUrl := None)
  }

  /** An unset or empty assets target gives the steps of no assets target at all. */
  lemma {:induction false} StepsOfUnsetAssets(config: Config, roles: seq<Role>)
    requires !AssetsEnabled(config)
    ensures StepsOf(config, roles) == StepsOf(NoAssets(config), roles)
  {
    if roles != [] {
      StepsOfUnsetAssets(config, roles[..|roles| - 1]);
      var role := roles[|roles| - 1];
      assert role != Assets ==> Target(config, role) == Target(NoAssets(config), role);
    }
  }

  /** With the assets target set, its two patterns are tried last, against that target. */
  lemma AssetsTriedLastWhenSet(config: Config)
    requires AssetsEnabled(config)
    ensures Steps(config)[|Steps(config)| - 2..]
            == [Step(Assets, "https://assets.hydralauncher.gg", config.assetsUrl.value),
                Step(Assets, "https://cdn.losbroxas.org", config.assetsUrl.value)]
  {
    StepsByRole(config);
    var a := RoleSteps(config, Assets);
    assert |a| == 2;
    assert Steps(config)[|Steps(config)| - 2..] == a;
  }

  // ---------------------------------------------------------------------
  // Replace-all and idempotence

  /**
    No known pattern can overlap any target, and no target is empty: the
    condition under which a rewrite can neither leave nor create a pattern.
   */
  ghost predicate SeparatedSteps(steps: seq<Step>) {
    && (forall k :: 0 <= k < |steps| ==> steps[k].target != "")
    && (forall i, j :: 0 <= i < |steps| && 0 <= j < |steps| ==> !Overlap(steps[i].pattern, steps[j].target))
  }

  ghost predicate Separated(config: Config) {
    SeparatedSteps(Steps(config))
  }

  lemma {:induction false} RunCleans(r: PatchResult, steps: seq<Step>)
    requires NonEmptyPatterns(steps)
    requires SeparatedSteps(steps)
    ensures Clean(Run(r, steps, false).patchedContent, steps)
  {
    if steps != [] {
      var init, last := steps[..|steps| - 1], steps[|steps| - 1];
      RunCleans(r, init);
      var s := Run(r, init, false).patchedContent;
      if Contains(s, last.pattern) {
        ReplaceAllRemoves(s, last.pattern, last.target);
        forall k | 0 <= k < |init| ensures !Contains(ReplaceAll(s, last.pattern, last.target), init[k].pattern) {
          assert init[k] == steps[k];
          ReplaceAllKeepsAbsent(s, last.pattern, last.target, init[k].pattern);
        }
      }
    }
  }

  /**
    When no known pattern overlaps a target, a non-dry run removes every
    active known pattern (every occurrence, since it splits and joins), and
    patching the output again reports no change and returns it unchanged.
   */
  lemma PatchIdempotent(content: string, config: Config)
    requires Separated(config)
    ensures Clean(Patch(content, config, false).patchedContent, Steps(config))
    ensures var once := Patch(content, config, false).patchedContent;
            Patch(once, config, false) == PatchResult(once, 0, [])
  {
    RunCleans(Initial(content), Steps(config));
    RunOverClean(Initial(Patch(content, config, false).patchedContent), Steps(config), false);
  }

  /** No two steps' patterns can overlap (so in particular no pattern is listed twice). */
  ghost predicate PatternsApart(steps: seq<Step>) {
    forall i, j :: 0 <= i < |steps| && 0 <= j < |steps| && i != j ==> !Overlap(steps[i].pattern, steps[j].pattern)
  }

  /**
    A non-dry run over separated steps whose patterns are apart: after the
    first `n` steps, the changes are those a dry run finds in the original
    content, and every later pattern occurs in the rewritten content exactly
    when it occurred in the original.
   */
  lemma {:induction false} NonDryFinds(content: string, all: seq<Step>, n: nat)
    requires n <= |all| && NonEmptyPatterns(all)
    requires SeparatedSteps(all) && PatternsApart(all)
    ensures NonEmptyPatterns(all[..n])
    ensures Run(Initial(content), all[..n], false).changes == Found(content, all[..n])
    ensures Run(Initial(content), all[..n], false).changeCount == |Found(content, all[..n])|
    ensures forall k :: n <= k < |all| ==>
              (Contains(Run(Initial(content), all[..n], false).patchedContent, all[k].pattern)
               <==> Contains(content, all[k].pattern))
  {
    if n > 0 {
      NonDryFinds(content, all, n - 1);
      var prev, st := all[..n - 1], all[n - 1];
      assert all[..n] == prev + [st];
      RunSnoc(Initial(content), prev, st, false);
      var cur := Run(Initial(content), prev, false).patchedContent;
      if Contains(cur, st.pattern) {
        var next := ReplaceAll(cur, st.pattern, st.target);
        forall k | n <= k < |all| ensures Contains(next, all[k].pattern) <==> Contains(content, all[k].pattern) {
          var q := all[k].pattern;
          if Contains(cur, q) {
            var i :| 0 <= i <= |cur| - |q| && OccursAt(cur, q, i);
            ReplaceAllKeepsPresent(cur, st.pattern, st.target, q, i);
          } else {
            ReplaceAllKeepsAbsent(cur, st.pattern, st.target, q);
          }
        }
      }
    }
  }

  /**
    Under the same conditions a non-dry run reports the same changes, and
    so the same count, as a dry run over the same content.
   */
  lemma NonDryCountsAsDry(content: string, config: Config)
    requires Separated(config) && PatternsApart(Steps(config))
    ensures Patch(content, config, false).changes == Patch(content, config, true).changes
    ensures Patch(content, config, false).changeCount == Patch(content, config, true).changeCount
  {
    var all := Steps(config);
    NonDryFinds(content, all, |all|);
    assert all[..|all|] == all;
    DryRunReport(content, config);
  }

  // ---------------------------------------------------------------------
  // The default WebSocket target can re-create its own pattern

  const WsPattern := "wss://ws.hydralauncher.gg"
  const WsStaging := "wss://staging-ws.hydralauncher.gg"
  const WsDefault := "ws://localhost:3001/ws"

  lemma DefaultsValue()
    ensures Defaults == Config("http://localhost:3001", "http://localhost:3001/auth", WsDefault,
                               "http://localhost:3001", "http://localhost:3001/checkout", None)
  {
  }

  lemma WsChars()
    ensures 'p' !in WsPattern && 'i' !in WsPattern
    ensures 'p' !in WsDefault && 'i' !in WsDefault
    ensures 'i' in WsStaging
  {
    assert WsStaging[10] == 'i';
  }

  lemma CharNotInConcat(a: string, b: string, c: char)
    requires c !in a && c !in b
    ensures c !in a + b
  {
  }

  /** Every pattern of `steps` holds the character `c`. */
  ghost predicate AllHold(steps: seq<Step>, c: char) {
    forall k :: 0 <= k < |steps| ==> c in steps[k].pattern
  }

  lemma CleanWithout(s: string, steps: seq<Step>, c: char)
    requires c !in s && AllHold(steps, c)
    ensures Clean(s, steps)
  {
    forall k | 0 <= k < |steps| ensures !Contains(s, steps[k].pattern) {
      MissingChar(s, steps[k].pattern, c);
    }
  }

  lemma RoleStepsHoldP(config: Config, role: Role)
    requires role != Ws
    ensures AllHold(RoleSteps(config, role), 'p')
  {
    HttpsPatterns(role);
    var steps := RoleSteps(config, role);
    forall k | 0 <= k < |steps| ensures 'p' in steps[k].pattern {
      assert steps[k].pattern == KnownPatterns(role)[k];
    }
  }

  lemma AllHoldConcat(a: seq<Step>, b: seq<Step>, c: char)
    requires AllHold(a, c) && AllHold(b, c)
    ensures AllHold(a + b, c)
  {
    forall k | 0 <= k < |a + b| ensures c in (a + b)[k].pattern {
      if k < |a| { assert (a + b)[k] == a[k]; } else { assert (a + b)[k] == b[k - |a|]; }
    }
  }

  /**
    The table under a configuration with the default WebSocket target and
    no assets target: the API and Auth patterns, then the two WebSocket
    patterns, then the Nimbus and Checkout patterns, every one of them but
    the WebSocket ones holding the letter `p`.
   */
  lemma WsDefaultShape(config: Config) returns (before: seq<Step>, after: seq<Step>)
    requires config.wsUrl == WsDefault && !AssetsEnabled(config)
    ensures NonEmptyPatterns(before) && NonEmptyPatterns(after)
    ensures AllHold(before, 'p') && AllHold(after, 'p')
    ensures Steps(config) == before + [Step(Ws, WsPattern, WsDefault), Step(Ws, WsStaging, WsDefault)] + after
  {
    var a, au, w := RoleSteps(config, Api), RoleSteps(config, Auth), RoleSteps(config, Ws);
    var n, c, z := RoleSteps(config, Nimbus), RoleSteps(config, Checkout), RoleSteps(config, Assets);
    StepsByRole(config);
    NoAssetsSteps(config);
    before := a + au;
    after := n + c;
    RoleStepsHoldP(config, Api);
    RoleStepsHoldP(config, Auth);
    RoleStepsHoldP(config, Nimbus);
    RoleStepsHoldP(config, Checkout);
    AllHoldConcat(a, au, 'p');
    AllHoldConcat(n, c, 'p');
    WsRoleSteps(config);
    Regroup(a + au + w, n, c, z);
  }

  lemma NoAssetsSteps(config: Config)
    requires !AssetsEnabled(config)
    ensures RoleSteps(config, Assets) == []
  {
  }

  lemma Regroup(x: seq<Step>, n: seq<Step>, c: seq<Step>, z: seq<Step>)
    requires z == []
    ensures x + n + c + z == x + (n + c)
  {
  }

  /** The WebSocket role's two steps, under the default WebSocket target. */
  lemma WsRoleSteps(config: Config)
    requires config.wsUrl == WsDefault
    ensures RoleSteps(config, Ws) == [Step(Ws, WsPattern, WsDefault), Step(Ws, WsStaging, WsDefault)]
  {
    var steps := RoleSteps(config, Ws);
    assert |steps| == 2;
    assert steps[0] == Step(Ws, WsPattern, WsDefault);
    assert steps[1] == Step(Ws, WsStaging, WsDefault);
  }

  /**
    A run over `before + [w0, w1] + after` on content lacking the letters
    `p` and `i`, when every pattern but `w0`'s holds one of them and the
    target adds neither: only `w0` can match.
   */
  lemma OnlyFirstMatches(s: string, before: seq<Step>, w0: Step, w1: Step, after: seq<Step>)
    requires NonEmptyPatterns(before) && NonEmptyPatterns(after) && w0.pattern != "" && w1.pattern != ""
    requires AllHold(before, 'p') && AllHold(after, 'p') && 'i' in w1.pattern
    requires 'p' !in s && 'i' !in s && 'p' !in w0.target && 'i' !in w0.target
    ensures NonEmptyPatterns(before + [w0, w1] + after)
    ensures Run(Initial(s), before + [w0, w1] + after, false)
            == if Contains(s, w0.pattern)
               then PatchResult(ReplaceAll(s, w0.pattern, w0.target), 1, [ChangeOf(w0)])
               else Initial(s)
  {
    var w := [w0, w1];
    CleanWithout(s, before, 'p');
    RunOverClean(Initial(s), before, false);
    RunConcat(Initial(s), before, w, false);
    RunConcat(Initial(s), before + w, after, false);
    var r1 := ApplyStep(Initial(s), w0, false);
    RunSnoc(Initial(s), [], w0, false);
    RunSnoc(Initial(s), [w0], w1, false);
    assert [] + [w0] == [w0] && [w0] + [w1] == w;
    if Contains(s, w0.pattern) {
      ReplaceAllChars(s, w0.pattern, w0.target, 'i');
      ReplaceAllChars(s, w0.pattern, w0.target, 'p');
    }
    MissingChar(r1.patchedContent, w1.pattern, 'i');
    CleanWithout(r1.patchedContent, after, 'p');
    RunOverClean(r1, after, false);
  }

  /**
    With the default WebSocket target, content lacking the letters `p` and
    `i` can only match the first WebSocket pattern.
   */
  lemma WsDefaultPatchWithoutPI(s: string, config: Config)
    requires config.wsUrl == WsDefault && !AssetsEnabled(config)
    requires 'p' !in s && 'i' !in s
    ensures Patch(s, config, false)
            == if Contains(s, WsPattern)
               then PatchResult(ReplaceAll(s, WsPattern, WsDefault), 1, [Change(Ws, WsPattern, WsDefault)])
               else Initial(s)
  {
    var before, after := WsDefaultShape(config);
    WsChars();
    OnlyFirstMatches(s, before, Step(Ws, WsPattern, WsDefault), Step(Ws, WsStaging, WsDefault), after);
  }

  /** What the first WebSocket pattern leaves behind when its leading `ws` is cut off. */
  const WsTail := "s://ws.hydralauncher.gg"

  /** `WsPattern + WsTail` holds the first WebSocket pattern and rewrites to `WsDefault + WsTail`. */
  lemma WsContentFacts()
    ensures 'p' !in WsPattern + WsTail && 'i' !in WsPattern + WsTail
    ensures Contains(WsPattern + WsTail, WsPattern)
    ensures ReplaceAll(WsPattern + WsTail, WsPattern, WsDefault) == WsDefault + WsTail
  {
    WsChars();
    CharNotInConcat(WsPattern, WsTail, 'p');
    CharNotInConcat(WsPattern, WsTail, 'i');
    var content := WsPattern + WsTail;
    assert OccursAt(content, WsPattern, 0) by { assert content[..|WsPattern|] == WsPattern; }
    ReplaceAllLeading(WsPattern, WsTail, WsDefault);
  }

  /** `WsDefault + WsTail` holds the first WebSocket pattern again, at position 20. */
  lemma WsOutFacts()
    ensures 'p' !in WsDefault + WsTail && 'i' !in WsDefault + WsTail
    ensures Contains(WsDefault + WsTail, WsPattern)
  {
    WsChars();
    CharNotInConcat(WsDefault, WsTail, 'p');
    CharNotInConcat(WsDefault, WsTail, 'i');
    WsOutOccurs();
    assert OccursAt(WsDefault + WsTail, WsPattern, 20);
  }

  lemma WsOutOccurs()
    ensures OccursAt(WsDefault + WsTail, WsPattern, 20)
  {
    assert WsDefault[20..] == "ws";
    assert "ws" + WsTail == WsPattern;
    OccursAcross(WsDefault, WsTail, WsPattern, 20);
  }

  /** A pattern made of the end of `a` from `i` on and all of `b` occurs in `a + b` at `i`. */
  lemma OccursAcross(a: string, b: string, p: string, i: nat)
    requires i <= |a| && a[i..] + b == p
    ensures OccursAt(a + b, p, i)
  {
    assert (a + b)[i..] == a[i..] + b;
    assert (a + b)[i..i + |p|] == (a + b)[i..];
  }

  /**
    With the default WebSocket target (whatever the other targets) neither
    "replace-all leaves no occurrence" nor idempotence holds: the target
    ends in `ws`, which joins the `s://ws.hydralauncher.gg` that follows into
    a fresh `wss://ws.hydralauncher.gg`, so a second run reports one more
    change. `DefaultsValue` shows the default configuration is such a one.
   */
  lemma WsDefaultNotIdempotent(config: Config)
    requires config.wsUrl == WsDefault && !AssetsEnabled(config)
    ensures var content := WsPattern + WsTail;
            var once := Patch(content, config, false);
            && !Contains(WsDefault, WsPattern)
            && Contains(ReplaceAll(content, WsPattern, WsDefault), WsPattern)
            && once == PatchResult(WsDefault + WsTail, 1, [Change(Ws, WsPattern, WsDefault)])
            && Patch(once.patchedContent, config, false).changeCount == 1
  {
    WsContentFacts();
    WsOutFacts();
    WsDefaultPatchWithoutPI(WsPattern + WsTail, config);
    WsDefaultPatchWithoutPI(WsDefault + WsTail, config);
  }
}
