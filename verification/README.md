# udm14-for-safari: rule generation and dynamic-rule reload, in Dafny

The extension rewrites Google search requests so that they carry `udm=14`.
It does this with declarativeNetRequest redirect rules. Two pieces of the
repository have logic of their own, and this project models both as pure
functions over immutable values:

- **Rule generation** (`Assets/Rules/generate_rules.py`). This build script
  copies every template rule and every manifest `host_permissions` entry once
  per supported Google domain suffix (a "tld", such as `.google.de`). The
  copies are made in TLD-major order. In a rule copy only
  `condition.regexFilter` is rewritten: every `.google.com` in it is replaced
  by the suffix, and the rest of the rule is copied unchanged. In a
  permission copy the whole entry is rewritten the same way. The copied
  rules are numbered 1, 2, ... (module `Generator`).
- **Dynamic-rule reload** (`reloadWebRequestRules` in
  `Extension/Resources/background.js`). It loads the bundled
  `redirect-rules.json` and reads the installed dynamic rules. It then makes
  one `updateDynamicRules` call that removes every installed id and adds the
  loaded rules (module `Sync`).

The other modules are:

- `Rules`: the rule record `Rule(id, regexFilter, rest)`. `rest` holds every
  other field of the rule and its condition as an uninterpreted JSON `Value`.
- `Strings`: Python's `str.replace`, plus `Split`/`Join` as an independent
  reference definition of it.

The browser's dynamic-rule store is the sequence of installed rules.
`updateDynamicRules` is one atomic step on that store (`Sync.Update`): it
drops the listed ids, then appends the added rules. The update is rejected,
and the store left as it was, when two added rules share an id or an added
id is still installed after the removals. A reload (`Sync.Reload`) returns:

- the new store;
- the list of browser calls it made;
- an outcome: `Done`; `Failed(ResourceLoadError)` when the bundle does not
  load; `Failed(RuleReadError)` when `getDynamicRules` fails; or
  `Failed(RuleInstallError)` when the browser rejects the update.

What the environment answers during one run is a `Run`: the bundle that
loading gives, and whether reading the installed rules succeeds.

The two parts meet in `Sync.GeneratedRulesInstall`. The generator's ids are
1..n, so they are unique, and the update built from them is never rejected.

Two facts about the code shape the model:

- The installed rules are read as an ordered list, and `removeRuleIds` is
  that list's ids in order.
- A failed reload is not caught anywhere. In `background.js` it becomes an
  unhandled promise rejection. Here it is the `Failed` outcome, and the store
  is unchanged.

## Model

| member | source | states |
|---|---|---|
| Strings.ReplaceUnchangedIff | Assets/Rules/generate_rules.py:34 | `str.replace` leaves a filter unchanged exactly when `.google.com` does not occur in it or is replaced by itself |
| Strings.ReplaceAbsent | Assets/Rules/generate_rules.py:34 | a string without the pattern comes back unchanged |
| Strings.ReplacePresent | Assets/Rules/generate_rules.py:34 | once the pattern occurs, replacing it by a different string changes the string |
| Strings.ReplaceIsJoinOfSplit | Assets/Rules/generate_rules.py:34 | the left-to-right, non-overlapping replacement equals the reference `rep.join(s.split(pat))` |
| Generator.DeriveChangesOnlyIdAndFilter | Assets/Rules/generate_rules.py:32-34 | a copy of a template gets the new id and the rewritten filter; every other field is the template's; a filter without `.google.com` is copied as is |
| Generator.Expand | Assets/Rules/generate_rules.py:29-35 | the generated list has one rule per (tld, template) pair; with no tld it is empty, and the templates are then not read |
| Generator.ExpandIds | Assets/Rules/generate_rules.py:33 | the generated rules are numbered 1..n in output order |
| Generator.ExpandRowAt | Assets/Rules/generate_rules.py:30-31 | TLD-major order: the block of `|rules|` rules for `tlds[i]` holds the copies of every template, in template order |
| Generator.ExpandRows | Assets/Rules/generate_rules.py:30-31 | the same block structure, for every tld at once |
| Generator.ExpandCell | Assets/Rules/generate_rules.py:30-34 | the rule at position `RowStart(i, |rules|) + j` (which `RowStartIsProduct` proves equal to `i * |rules| + j`) is numbered by its position, has `rules[j]`'s filter with `.google.com` replaced by `tlds[i]`, and has `rules[j]`'s other fields |
| Generator.ExpandAt | Assets/Rules/generate_rules.py:30-34 | the rule at position `RowStart(i, |rules|) + j` is the copy of `rules[j]` for `tlds[i]`, numbered by its position |
| Generator.ExpandCellProduct | Assets/Rules/generate_rules.py:30-34 | the rule at index `i * |rules| + j` is the copy of `rules[j]` for `tlds[i]`, numbered `i * |rules| + j + 1` |
| Generator.ExpandLength | Assets/Rules/generate_rules.py:29-35 | exactly `|tlds| * |rules|` rules are generated |
| Generator.RowSnoc | Assets/Rules/generate_rules.py:31-35 | appending the copy of one more template extends a tld's block by exactly that copy, numbered next |
| Generator.GenerateRules | Assets/Rules/generate_rules.py:29-35 | the nested loop that numbers each copy `len(newrules) + 1` produces exactly the TLD-major expansion, with ids 1..n |
| Generator.ExpandDomains | Assets/Rules/generate_rules.py:17-21 | the rewritten `host_permissions` has one entry per (tld, domain) pair |
| Generator.ExpandDomainsRowAt | Assets/Rules/generate_rules.py:18-19 | TLD-major order: the block for `tlds[i]` is every domain rewritten for `tlds[i]`, in domain order |
| Generator.ExpandDomainsRows | Assets/Rules/generate_rules.py:18-19 | the same block structure, for every tld at once |
| Generator.ExpandDomainsCell | Assets/Rules/generate_rules.py:18-20 | the entry at `RowStart(i, |domains|) + j` is `domains[j]` with `.google.com` replaced by `tlds[i]` |
| Generator.ExpandDomainsCellProduct | Assets/Rules/generate_rules.py:18-20 | the entry at index `i * |domains| + j` is `domains[j]` with `.google.com` replaced by `tlds[i]` |
| Generator.ExpandDomainsLength | Assets/Rules/generate_rules.py:17-21 | exactly `|tlds| * |domains|` permissions are produced |
| Generator.RewriteManifest | Assets/Rules/generate_rules.py:17-21 | only `host_permissions` is assigned: to the expansion of its old entries, or to the empty array when there is no tld (the key is then added if it was missing); every other key keeps its value, and no other key is added or dropped |
| Rules.Ids | Extension/Resources/background.js:12 | `removeRuleIds` lists the id of each installed rule, position by position |
| Sync.Survivors | Extension/Resources/background.js:11-12 | a rule survives the removal exactly when it was installed and its id is not listed |
| Sync.Update | Extension/Resources/background.js:11-14 | the combined update is accepted exactly when the added ids are distinct and none is still installed after the removals; when accepted, the store holds the survivors and the added rules, with the added rules last and in order |
| Sync.UpdateKeepsIdsUnique | Extension/Resources/background.js:11-14 | an accepted update keeps the ids in the store pairwise distinct |
| Sync.RemoveAllInstalled | Extension/Resources/background.js:10-12 | removing the ids read from the store leaves no survivor, including stale or unknown ids |
| Sync.Reload | Extension/Resources/background.js:5-15 | a failed load makes no browser call and leaves the store untouched; a failed read makes that one call and stops before the update; otherwise the reload makes exactly one read and one update, with `removeRuleIds` = the installed ids and `addRules` = the loaded rules; the reload succeeds exactly when the load and the read succeed and the loaded ids are distinct, and then the store equals the loaded rules; otherwise the store is unchanged |
| Sync.ReloadConverges | Extension/Resources/background.js:10-14 | from any prior store, a reload of a bundle with distinct ids installs exactly that bundle |
| Sync.ReloadIdempotent | Extension/Resources/background.js:5-15 | two successive reloads with the same bundle leave the same store as one |
| Sync.ReloadsKeepFixedPoint | Extension/Resources/background.js:18-20 | a store that one reload of a bundle leaves as it is stays so under any further reloads of that bundle, whether their reads succeed or not |
| Sync.RepeatedReloadsActAsOne | Extension/Resources/background.js:18-20 | any number of reloads from the startup, install and load-time triggers, with the same bundle and at least one successful read, leaves the store as one reload does |
| Sync.LastGoodReloadWins | Extension/Resources/background.js:17-20 | whatever earlier reloads did (failed loads or reads, rejected updates, other bundles), a sequence whose last reload loads a bundle with distinct ids and reads the store ends with exactly that bundle installed |
| Sync.StaleUpdateKeepsConverged | Extension/Resources/background.js:10-14 | an update built from an out-of-date read, applied to a store that already holds the bundle, leaves that store unchanged, for any bundle |
| Sync.RacingReloadsConverge | Extension/Resources/background.js:18-20 | two reloads that both read the store before either update lands still end with exactly the bundle installed |
| Sync.GeneratedRulesInstall | Assets/Rules/generate_rules.py:33 | the generated rule list always installs: from any prior store, a reload that loads it and reads the store succeeds, and the store equals the generated list |

## Left out

- File and JSON input/output in `generate_rules.py` (`open`, `json.load`, `json.dump`, `splitlines`). Inputs are already-parsed sequences and outputs are returned values.
- The order of the manifest's JSON keys and the output formatting. The manifest is a `map`, so key order is not kept.
- JSON numbers other than integers, which the rule and manifest files do not use.
- `Strings.Replace` requires a non-empty pattern. Python's behaviour for an empty pattern (an insertion between every pair of characters) is not modelled, because the script only ever replaces the constant `.google.com`.
- A template rule without `condition.regexFilter`, or a manifest without a string-array `host_permissions`, when there is at least one tld. These are preconditions (`HasRegexFilters`, `HasHostPermissions`, required only for a non-empty `tlds`). A missing key, a non-string filter, or an array entry that is not a string makes the script raise. The rule crash comes after the manifest has been written, and that order is not modelled.
- Generator.RewriteManifest: does not cover a `host_permissions` that is a JSON string or object, which the script does not reject. Python would iterate over its characters or keys and rewrite each one as a permission. The object case depends on key order, which the `map` does not keep.
- The deep copy (`copy.deepcopy`). All values here are immutable, so the templates cannot be changed by construction.
- `fetch`, `runtime.getURL` and the response's `json()`. Together they are one load result, `Bundle`: `Loaded(rules)` or `LoadFailed`.
- The browser's other grounds for rejecting an update, such as the dynamic-rule quota, ids below 1 and invalid regular expressions. Only the id conditions are modelled.
- A partially applied failed update. The browser's update is modelled as all-or-nothing.
- Real asynchronous interleaving of the three triggers. The model covers sequential runs of reloads (`ReloadAll`) and the two-reload race (`RacingReloadsConverge`), with each update atomic.
- How the browser matches and redirects requests. It is opaque, and `redirect-rules.json` itself is not part of this model.
- The native wrapper apps (`App/`, `macOS/`, `iOS (App)/`). They are layout, menu and settings-opening glue with no logic of their own.
- Sync.Survivors: the contract states which rules survive, not that they keep their installed order (the function body keeps it).
