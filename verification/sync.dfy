/**
 * `reloadWebRequestRules` from the extension's background script: load the
 * bundled rule list, read the installed dynamic rules, and issue one update
 * that removes every installed id and adds the loaded rules. The browser's
 * dynamic-rule store is modelled as the sequence of installed rules, and
 * each browser API call as a step on it.
 */
module Sync {
  import opened Rules
  import Generator

  /** The outcome of fetching `redirect-rules.json` and parsing it as JSON. */
  datatype Bundle = Loaded(rules: seq<Rule>) | LoadFailed

  /**
   * Why a reload failed: the bundle did not load, the browser could not
   * read the installed rules, or it rejected the update.
   */
  datatype SyncError = ResourceLoadError | RuleReadError | RuleInstallError

  /**
   * What the environment answers during one run: the bundle that loading
   * gives, and whether `getDynamicRules` succeeds.
   */
  datatype Run = Run(bundle: Bundle, readOk: bool)

  /** A call the script makes on `declarativeNetRequest`. */
  datatype HostCall =
    | GetDynamicRules
    | UpdateDynamicRules(removeRuleIds: seq<int>, addRules: seq<Rule>)

  datatype Outcome = Done | Failed(error: SyncError)

  /** The browser's answer to an update: the new installed rules, or a rejection. */
  datatype Answer = Accepted(now: seq<Rule>) | Rejected

  /** The store after one reload, the browser calls the reload made, and how it ended. */
  datatype Step = Step(installed: seq<Rule>, calls: seq<HostCall>, outcome: Outcome)

  /** The installed rules whose ids are not listed in `removeIds`, in their installed order. */
  function Survivors(installed: seq<Rule>, removeIds: seq<int>): (kept: seq<Rule>)
    ensures forall r :: r in kept <==> r in installed && r.id !in removeIds
  {
    if |installed| == 0 then []
    else if installed[0].id in removeIds then Survivors(installed[1..], removeIds)
    else [installed[0]] + Survivors(installed[1..], removeIds)
  }

  /**
   * The browser's `updateDynamicRules({removeRuleIds, addRules})`, one atomic
   * step: drop the listed ids, then append the added rules. The update is
   * rejected, leaving the store as it was, when two added rules share an id
   * or an added id is still installed after the removals.
   */
  function Update(installed: seq<Rule>, removeIds: seq<int>, addRules: seq<Rule>): (a: Answer)
    ensures a.Accepted? <==>
              && UniqueIds(addRules)
              && forall x, y :: x in installed && x.id !in removeIds && y in addRules ==> x.id != y.id
    ensures a.Accepted? ==>
              forall r :: r in a.now <==> (r in installed && r.id !in removeIds) || r in addRules
    ensures a.Accepted? ==> |a.now| >= |addRules| && a.now[|a.now| - |addRules|..] == addRules
  {
    var kept := Survivors(installed, removeIds);
    if UniqueIds(addRules) && IdSet(kept) !! IdSet(addRules) then
      var now := kept + addRules;
      assert now[|now| - |addRules|..] == addRules;
      assert forall x, y :: x in kept && y in addRules ==> x.id != y.id by {
        forall x, y | x in kept && y in addRules
          ensures x.id != y.id
        {
          assert x.id in IdSet(kept) && y.id in IdSet(addRules);
        }
      }
      Accepted(now)
    else
      assert UniqueIds(addRules) ==> exists x, y :: x in kept && y in addRules && x.id == y.id by {
        if UniqueIds(addRules) {
          var id :| id in IdSet(kept) && id in IdSet(addRules);
          var x :| x in kept && x.id == id;
          var y :| y in addRules && y.id == id;
        }
      }
      Rejected
  }

  /** The store after an update: the new rules when accepted, the old ones when rejected. */
  function Apply(installed: seq<Rule>, removeIds: seq<int>, addRules: seq<Rule>): seq<Rule>
  {
    match Update(installed, removeIds, addRules)
    case Accepted(now) => now
    case Rejected => installed
  }

  /** Survivors of a store with unique ids keep unique ids. */
  lemma {:induction false} SurvivorsKeepIdsUnique(installed: seq<Rule>, removeIds: seq<int>)
    requires UniqueIds(installed)
    ensures UniqueIds(Survivors(installed, removeIds))
    decreases |installed|
  {
    if |installed| > 0 {
      var rest := installed[1..];
      assert UniqueIds(rest) by {
        forall a, b | 0 <= a < b < |rest|
          ensures rest[a].id != rest[b].id
        {
          assert rest[a] == installed[a + 1] && rest[b] == installed[b + 1];
        }
      }
      SurvivorsKeepIdsUnique(rest, removeIds);
      var tail := Survivors(rest, removeIds);
      forall r | r in tail
        ensures r.id != installed[0].id
      {
        var k :| 0 <= k < |rest| && rest[k] == r;
        assert installed[k + 1] == r;
      }
    }
  }

  /** Two id-unique lists with no id in common concatenate to an id-unique list. */
  lemma ConcatKeepsIdsUnique(front: seq<Rule>, back: seq<Rule>)
    requires UniqueIds(front) && UniqueIds(back)
    requires forall x, y :: x in front && y in back ==> x.id != y.id
    ensures UniqueIds(front + back)
  {
    var both := front + back;
    forall a, b | 0 <= a < b < |both|
      ensures both[a].id != both[b].id
    {
      if b < |front| {
        assert both[a] == front[a] && both[b] == front[b];
      } else if a >= |front| {
        assert both[a] == back[a - |front|] && both[b] == back[b - |front|];
      } else {
        assert both[a] in front && both[b] in back;
      }
    }
  }

  /** An accepted update keeps the store's ids unique. */
  lemma UpdateKeepsIdsUnique(installed: seq<Rule>, removeIds: seq<int>, addRules: seq<Rule>)
    requires UniqueIds(installed)
    requires Update(installed, removeIds, addRules).Accepted?
    ensures UniqueIds(Update(installed, removeIds, addRules).now)
  {
    var kept := Survivors(installed, removeIds);
    SurvivorsKeepIdsUnique(installed, removeIds);
    ConcatKeepsIdsUnique(kept, addRules);
  }

  /** Nothing survives when every installed id is listed for removal. */
  lemma {:induction false} NoSurvivors(installed: seq<Rule>, removeIds: seq<int>)
    requires forall r :: r in installed ==> r.id in removeIds
    ensures Survivors(installed, removeIds) == []
    decreases |installed|
  {
    if |installed| > 0 {
      assert installed[0] in installed;
      forall r | r in installed[1..]
        ensures r.id in removeIds
      {
        var k :| 0 <= k < |installed[1..]| && installed[1..][k] == r;
        assert installed[k + 1] == r;
      }
      NoSurvivors(installed[1..], removeIds);
    }
  }

  /** Removing every installed id, as the reload does, leaves no survivor. */
  lemma RemoveAllInstalled(installed: seq<Rule>)
    ensures Survivors(installed, Ids(installed)) == []
  {
    forall r | r in installed
      ensures r.id in Ids(installed)
    {
      var k :| 0 <= k < |installed| && installed[k] == r;
      assert Ids(installed)[k] == r.id;
    }
    NoSurvivors(installed, Ids(installed));
  }

  /**
   * One run of `reloadWebRequestRules` against the store `installed`, when
   * the environment answers as `run` says. Loading comes first, so a failed
   * load makes no browser call; a failed read stops before the update.
   */
  function Reload(installed: seq<Rule>, run: Run): (step: Step)
    ensures run.bundle.LoadFailed? ==> step == Step(installed, [], Failed(ResourceLoadError))
    ensures run.bundle.Loaded? && !run.readOk ==>
              step == Step(installed, [GetDynamicRules], Failed(RuleReadError))
    ensures run.bundle.Loaded? && run.readOk ==>
              step.calls == [GetDynamicRules, UpdateDynamicRules(Ids(installed), run.bundle.rules)]
    ensures step.outcome == Done <==> run.bundle.Loaded? && run.readOk && UniqueIds(run.bundle.rules)
    ensures step.outcome == Done ==> step.installed == run.bundle.rules
    ensures step.outcome != Done ==> step.installed == installed
  {
    match run.bundle
    case LoadFailed => Step(installed, [], Failed(ResourceLoadError))
    case Loaded(rules) =>
      if !run.readOk then Step(installed, [GetDynamicRules], Failed(RuleReadError))
      else
        var removeIds := Ids(installed);
        var calls := [GetDynamicRules, UpdateDynamicRules(removeIds, rules)];
        RemoveAllInstalled(installed);
        match Update(installed, removeIds, rules)
        case Accepted(now) => Step(now, calls, Done)
        case Rejected => Step(installed, calls, Failed(RuleInstallError))
  }

  /**
   * Convergence from any prior state: once a bundle with unique ids loads
   * and the store can be read, the store holds exactly its rules, whatever
   * was installed before.
   */
  lemma ReloadConverges(installed: seq<Rule>, rules: seq<Rule>)
    requires UniqueIds(rules)
    ensures Reload(installed, Run(Loaded(rules), true)) ==
              Step(rules, [GetDynamicRules, UpdateDynamicRules(Ids(installed), rules)], Done)
  {
  }

  /** Two successive reloads with the same bundle leave the store as one does. */
  lemma ReloadIdempotent(installed: seq<Rule>, run: Run)
    ensures Reload(Reload(installed, run).installed, run).installed
         == Reload(installed, run).installed
  {
  }

  /** The store after one reload per element of `runs`, first to last. */
  function ReloadAll(installed: seq<Rule>, runs: seq<Run>): seq<Rule>
    decreases |runs|
  {
    if |runs| == 0 then installed
    else ReloadAll(Reload(installed, runs[0]).installed, runs[1..])
  }

  /**
   * A store that a reload of `bundle` leaves as it is stays so under any
   * further reloads of `bundle`, whether their reads succeed or not.
   */
  lemma {:induction false} ReloadsKeepFixedPoint(store: seq<Rule>, bundle: Bundle, runs: seq<Run>)
    requires Reload(store, Run(bundle, true)).installed == store
    requires forall k :: 0 <= k < |runs| ==> runs[k].bundle == bundle
    ensures ReloadAll(store, runs) == store
    decreases |runs|
  {
    if |runs| > 0 {
      assert runs[0].bundle == bundle;
      ReloadsKeepFixedPoint(store, bundle, runs[1..]);
    }
  }

  /**
   * The startup, install and script-load triggers each run a reload with
   * the same bundled file: any number of them, in any order, with at least
   * one successful read, leaves the store as a single reload does.
   */
  lemma {:induction false} RepeatedReloadsActAsOne(installed: seq<Rule>, bundle: Bundle, runs: seq<Run>)
    requires forall k :: 0 <= k < |runs| ==> runs[k].bundle == bundle
    requires exists k :: 0 <= k < |runs| && runs[k].readOk
    ensures ReloadAll(installed, runs) == Reload(installed, Run(bundle, true)).installed
    decreases |runs|
  {
    var once := Reload(installed, Run(bundle, true)).installed;
    assert runs[0].bundle == bundle;
    if runs[0].readOk {
      assert Reload(installed, runs[0]).installed == once;
      ReloadIdempotent(installed, Run(bundle, true));
      ReloadsKeepFixedPoint(once, bundle, runs[1..]);
    } else {
      var k :| 0 <= k < |runs| && runs[k].readOk;
      assert runs[1..][k - 1].readOk;
      RepeatedReloadsActAsOne(installed, bundle, runs[1..]);
    }
  }

  /**
   * A run of reloads whose last one loads a bundle with unique ids and
   * reads the store ends with exactly that bundle installed, whatever the
   * earlier runs did (failed loads or reads, rejected updates, other
   * bundles).
   */
  lemma {:induction false} LastGoodReloadWins(installed: seq<Rule>, runs: seq<Run>)
    requires |runs| >= 1
    requires runs[|runs| - 1].bundle.Loaded? && runs[|runs| - 1].readOk
    requires UniqueIds(runs[|runs| - 1].bundle.rules)
    ensures ReloadAll(installed, runs) == runs[|runs| - 1].bundle.rules
    decreases |runs|
  {
    if |runs| > 1 {
      LastGoodReloadWins(Reload(installed, runs[0]).installed, runs[1..]);
    }
  }

  /**
   * A racing reload that read the store before another reload's update
   * landed removes stale ids and re-adds the same rules; applied to the
   * converged store it leaves it converged.
   */
  lemma StaleUpdateKeepsConverged(rules: seq<Rule>, staleIds: seq<int>)
    ensures Apply(rules, staleIds, rules) == rules
  {
    var kept := Survivors(rules, staleIds);
    if |kept| > 0 {
      assert kept[0] in rules;
      assert !Update(rules, staleIds, rules).Accepted?;
    } else {
      assert kept + rules == rules;
    }
  }

  /**
   * Two reloads racing from the same store, both reading it before either
   * update lands, converge to the bundle's rules.
   */
  lemma RacingReloadsConverge(installed: seq<Rule>, rules: seq<Rule>)
    requires UniqueIds(rules)
    ensures Apply(Apply(installed, Ids(installed), rules), Ids(installed), rules) == rules
  {
    RemoveAllInstalled(installed);
    assert Apply(installed, Ids(installed), rules) == rules;
    StaleUpdateKeepsConverged(rules, Ids(installed));
  }

  /**
   * The generator's output always installs: its ids are unique, so a
   * reload that loads it converges to it from any prior store.
   */
  lemma GeneratedRulesInstall(installed: seq<Rule>, tlds: seq<string>, templates: seq<Rule>)
    requires |tlds| > 0 ==> Generator.HasRegexFilters(templates)
    ensures Reload(installed, Run(Loaded(Generator.Expand(tlds, templates)), true)).outcome == Done
    ensures Reload(installed, Run(Loaded(Generator.Expand(tlds, templates)), true)).installed
         == Generator.Expand(tlds, templates)
  {
    var out := Generator.Expand(tlds, templates);
    Generator.ExpandIds(tlds, templates);
    assert UniqueIds(out);
  }
}
