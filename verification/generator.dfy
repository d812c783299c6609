/**
 * The build-time expansion of generate_rules.py, with its file and JSON
 * input/output stripped: the template rules and the manifest's
 * `host_permissions` are written for `.google.com` and are copied once per
 * supported Google domain suffix (a "tld", such as `.google.de`).
 */
module Generator {
  import opened Rules
  import opened Strings

  /** The domain every template is written for. */
  const GoogleDomain: string := ".google.com"

  /** The manifest key that the script rewrites. */
  const HostPermissions: string := "host_permissions"

  /**
   * Every template rule carries a `condition.regexFilter`. The script
   * raises `KeyError` otherwise, as soon as there is a tld to copy for.
   */
  predicate HasRegexFilters(rules: seq<Rule>)
  {
    forall j :: 0 <= j < |rules| ==> rules[j].regexFilter.Some?
  }

  /** The copy of `template` made for `tld`, numbered `id`. */
  function Derive(template: Rule, tld: string, id: int): Rule
    requires template.regexFilter.Some?
  {
    template.(id := id, regexFilter := Some(Replace(template.regexFilter.value, GoogleDomain, tld)))
  }

  /**
   * The copy of `template` for `tld` numbered `id`: it carries that id, the
   * template's filter with every `.google.com` replaced by `tld`, and the
   * template's other fields unchanged; a filter without `.google.com` is
   * copied as it is.
   */
  lemma DeriveChangesOnlyIdAndFilter(template: Rule, tld: string, id: int)
    requires template.regexFilter.Some?
    ensures Derive(template, tld, id).id == id
    ensures Derive(template, tld, id).rest == template.rest
    ensures Derive(template, tld, id).regexFilter.Some?
    ensures Derive(template, tld, id).regexFilter.value
         == Join(Split(template.regexFilter.value, GoogleDomain), tld)
    ensures !Contains(template.regexFilter.value, GoogleDomain)
         ==> Derive(template, tld, id).regexFilter == template.regexFilter
  {
    ReplaceIsJoinOfSplit(template.regexFilter.value, GoogleDomain, tld);
    if !Contains(template.regexFilter.value, GoogleDomain) {
      ReplaceAbsent(template.regexFilter.value, GoogleDomain, tld);
    }
  }

  /** The copies of every template for one `tld`, numbered from `firstId` on. */
  function Row(tld: string, rules: seq<Rule>, firstId: int): seq<Rule>
    requires HasRegexFilters(rules)
  {
    seq(|rules|, j requires 0 <= j < |rules| => Derive(rules[j], tld, firstId + j))
  }

  /** Entry `j` of a row is the copy of `rules[j]`, numbered `firstId + j`. */
  lemma RowAt(tld: string, rules: seq<Rule>, firstId: int, j: nat)
    requires HasRegexFilters(rules)
    requires j < |rules|
    ensures Row(tld, rules, firstId)[j] == Derive(rules[j], tld, firstId + j)
  {
  }

  /**
   * Where row `i` starts in a TLD-major grid with `n` columns. It equals
   * `i * n` (`RowStartIsProduct`) but keeps the grid proofs linear.
   */
  function RowStart(i: nat, n: nat): nat
  {
    if i == 0 then 0 else RowStart(i - 1, n) + n
  }

  /** `RowStart` is the product it stands for. */
  lemma {:induction false} RowStartIsProduct(i: nat, n: nat)
    ensures RowStart(i, n) == i * n
  {
    if i > 0 {
      RowStartIsProduct(i - 1, n);
      assert (i - 1) * n + n == i * n;
    }
  }

  /** Row `i` ends no later than row `m > i` starts. */
  lemma {:induction false} RowStartMonotone(i: nat, m: nat, n: nat)
    requires i < m
    ensures RowStart(i, n) + n <= RowStart(m, n)
    decreases m - i
  {
    if i + 1 < m {
      RowStartMonotone(i, m - 1, n);
    }
  }

  /**
   * The generated rule list: the copies for `tlds[0]`, then those for
   * `tlds[1]`, and so on, with ids 1, 2, ... in output order.
   */
  function Expand(tlds: seq<string>, rules: seq<Rule>): (out: seq<Rule>)
    requires |tlds| > 0 ==> HasRegexFilters(rules)
    ensures |out| == RowStart(|tlds|, |rules|)
    decreases |tlds|
  {
    if |tlds| == 0 then []
    else
      var m := |tlds| - 1;
      Expand(tlds[..m], rules) + Row(tlds[m], rules, RowStart(m, |rules|) + 1)
  }

  /** The generated rules are numbered 1, 2, ... in output order. */
  lemma {:induction false} ExpandIds(tlds: seq<string>, rules: seq<Rule>)
    requires |tlds| > 0 ==> HasRegexFilters(rules)
    ensures forall k :: 0 <= k < |Expand(tlds, rules)| ==> Expand(tlds, rules)[k].id == k + 1
    decreases |tlds|
  {
    if |tlds| > 0 {
      var m := |tlds| - 1;
      var firstId := RowStart(m, |rules|) + 1;
      var prefix := Expand(tlds[..m], rules);
      var last := Row(tlds[m], rules, firstId);
      ExpandIds(tlds[..m], rules);
      var out: seq<Rule> := prefix + last;
      assert Expand(tlds, rules) == out;
      forall k | 0 <= k < |out|
        ensures out[k].id == k + 1
      {
        if k >= |prefix| {
          RowAt(tlds[m], rules, firstId, k - |prefix|);
        }
      }
    }
  }

  /**
   * TLD-major order: the block of `|rules|` rules starting at
   * `RowStart(i, |rules|)` is the copy of every template for `tlds[i]`.
   */
  lemma {:induction false} ExpandRowAt(tlds: seq<string>, rules: seq<Rule>, i: nat)
    requires HasRegexFilters(rules)
    requires i < |tlds|
    ensures RowStart(i, |rules|) + |rules| <= |Expand(tlds, rules)|
    ensures Expand(tlds, rules)[RowStart(i, |rules|)..RowStart(i, |rules|) + |rules|]
         == Row(tlds[i], rules, RowStart(i, |rules|) + 1)
    decreases |tlds|
  {
    var m := |tlds| - 1;
    var n := |rules|;
    var start := RowStart(i, n);
    var prefix := Expand(tlds[..m], rules);
    var last := Row(tlds[m], rules, RowStart(m, n) + 1);
    assert Expand(tlds, rules) == prefix + last;
    if i < m {
      ExpandRowAt(tlds[..m], rules, i);
      RowStartMonotone(i, m, n);
      assert tlds[..m][i] == tlds[i];
      SliceOfConcatLeft(prefix, last, start, n);
    } else {
      SliceOfConcatRight(prefix, last);
    }
  }

  /** `ExpandRowAt` for every row at once. */
  lemma ExpandRows(tlds: seq<string>, rules: seq<Rule>)
    requires |tlds| > 0 ==> HasRegexFilters(rules)
    ensures forall i {:trigger tlds[i]} :: 0 <= i < |tlds| ==>
              RowStart(i, |rules|) + |rules| <= |Expand(tlds, rules)| &&
              Expand(tlds, rules)[RowStart(i, |rules|)..RowStart(i, |rules|) + |rules|]
                == Row(tlds[i], rules, RowStart(i, |rules|) + 1)
  {
    forall i | 0 <= i < |tlds| {
      ExpandRowAt(tlds, rules, i);
    }
  }

  /** A block inside the left operand of a concatenation. */
  lemma SliceOfConcatLeft<T>(a: seq<T>, b: seq<T>, start: nat, n: nat)
    requires start + n <= |a|
    ensures (a + b)[start..start + n] == a[start..start + n]
  {
  }

  /** The right operand of a concatenation is the block after the left one. */
  lemma SliceOfConcatRight<T>(a: seq<T>, b: seq<T>)
    ensures (a + b)[|a|..|a| + |b|] == b
  {
  }

  /** Element `j` of a block equal to `row` is `row[j]`. */
  lemma SliceAt<T>(s: seq<T>, start: nat, n: nat, row: seq<T>, j: nat)
    requires start + n <= |s| && s[start..start + n] == row
    requires j < n
    ensures start + j < |s| && s[start + j] == row[j]
  {
    assert s[start + j] == s[start..start + n][j];
  }

  /**
   * The rule at `RowStart(i, |rules|) + j` is the copy of `rules[j]` for
   * `tlds[i]`: numbered by its position, its filter the template's with
   * `.google.com` replaced by `tlds[i]`, every other field the template's.
   */
  lemma ExpandCell(tlds: seq<string>, rules: seq<Rule>, i: nat, j: nat)
    requires HasRegexFilters(rules)
    requires i < |tlds| && j < |rules|
    ensures RowStart(i, |rules|) + j < |Expand(tlds, rules)|
    ensures Expand(tlds, rules)[RowStart(i, |rules|) + j].id == RowStart(i, |rules|) + j + 1
    ensures Expand(tlds, rules)[RowStart(i, |rules|) + j].regexFilter
         == Some(Replace(rules[j].regexFilter.value, GoogleDomain, tlds[i]))
    ensures Expand(tlds, rules)[RowStart(i, |rules|) + j].rest == rules[j].rest
  {
    ExpandAt(tlds, rules, i, j);
  }

  /** The rule at `RowStart(i, |rules|) + j` is `Derive` of `rules[j]` for `tlds[i]`. */
  lemma ExpandAt(tlds: seq<string>, rules: seq<Rule>, i: nat, j: nat)
    requires HasRegexFilters(rules)
    requires i < |tlds| && j < |rules|
    ensures RowStart(i, |rules|) + j < |Expand(tlds, rules)|
    ensures Expand(tlds, rules)[RowStart(i, |rules|) + j]
         == Derive(rules[j], tlds[i], RowStart(i, |rules|) + 1 + j)
  {
    var out := Expand(tlds, rules);
    var start := RowStart(i, |rules|);
    var row := Row(tlds[i], rules, start + 1);
    ExpandRowAt(tlds, rules, i);
    SliceAt(out, start, |rules|, row, j);
    RowAt(tlds[i], rules, start + 1, j);
  }

  /** `ExpandCell` at the TLD-major index `i * |rules| + j` itself. */
  lemma ExpandCellProduct(tlds: seq<string>, rules: seq<Rule>, i: nat, j: nat)
    requires HasRegexFilters(rules)
    requires i < |tlds| && j < |rules|
    ensures i * |rules| + j < |Expand(tlds, rules)|
    ensures Expand(tlds, rules)[i * |rules| + j] == Derive(rules[j], tlds[i], i * |rules| + j + 1)
  {
    RowStartIsProduct(i, |rules|);
    ExpandCell(tlds, rules, i, j);
  }

  /** The script emits `|tlds| * |rules|` rules. */
  lemma ExpandLength(tlds: seq<string>, rules: seq<Rule>)
    requires |tlds| > 0 ==> HasRegexFilters(rules)
    ensures |Expand(tlds, rules)| == |tlds| * |rules|
  {
    RowStartIsProduct(|tlds|, |rules|);
  }

  /** Extending the template prefix by one template extends the row by that template's copy. */
  lemma RowSnoc(tld: string, rules: seq<Rule>, j: nat, firstId: int)
    requires HasRegexFilters(rules)
    requires j < |rules|
    ensures HasRegexFilters(rules[..j]) && HasRegexFilters(rules[..j + 1])
    ensures Row(tld, rules[..j + 1], firstId) == Row(tld, rules[..j], firstId) + [Derive(rules[j], tld, firstId + j)]
  {
    assert HasRegexFilters(rules[..j]) && HasRegexFilters(rules[..j + 1]) by {
      assert forall k :: 0 <= k < j + 1 ==> rules[..j + 1][k] == rules[k];
    }
    var long := Row(tld, rules[..j + 1], firstId);
    var short := Row(tld, rules[..j], firstId) + [Derive(rules[j], tld, firstId + j)];
    assert |long| == |short|;
    forall k | 0 <= k < |long|
      ensures long[k] == short[k]
    {
      if k < j {
        assert rules[..j + 1][k] == rules[..j][k];
      }
    }
  }

  /**
   * The script's nested loop: for each tld, for each template, a deep copy
   * numbered `len(newrules) + 1` with its filter rewritten for the tld.
   */
  method GenerateRules(tlds: seq<string>, rules: seq<Rule>) returns (newrules: seq<Rule>)
    requires |tlds| > 0 ==> HasRegexFilters(rules)
    ensures forall k :: 0 <= k < |newrules| ==> newrules[k].id == k + 1
    ensures newrules == Expand(tlds, rules)
  {
    newrules := [];
    var i := 0;
    while i < |tlds|
      invariant 0 <= i <= |tlds|
      invariant newrules == Expand(tlds[..i], rules)
    {
      var tld := tlds[i];
      var start := RowStart(i, |rules|);
      ghost var done := newrules;
      assert |done| == start;
      var j := 0;
      while j < |rules|
        invariant 0 <= j <= |rules|
        invariant HasRegexFilters(rules[..j])
        invariant newrules == done + Row(tld, rules[..j], start + 1)
        invariant |newrules| == start + j
      {
        var rule := rules[j];
        var newrule := rule.(id := |newrules| + 1);
        newrule := newrule.(regexFilter := Some(Replace(rule.regexFilter.value, GoogleDomain, tld)));
        assert newrule == Derive(rules[j], tld, start + 1 + j);
        RowSnoc(tld, rules, j, start + 1);
        newrules := newrules + [newrule];
        j := j + 1;
      }
      assert rules[..j] == rules;
      assert tlds[..i + 1][..i] == tlds[..i];
      i := i + 1;
    }
    assert tlds[..i] == tlds;
    ExpandIds(tlds, rules);
  }

  /** `domains` rewritten for one `tld`. */
  function DomainRow(tld: string, domains: seq<string>): seq<string>
  {
    seq(|domains|, j requires 0 <= j < |domains| => Replace(domains[j], GoogleDomain, tld))
  }

  /** The rewritten `host_permissions`: `domains` rewritten for `tlds[0]`, then for `tlds[1]`, and so on. */
  function ExpandDomains(tlds: seq<string>, domains: seq<string>): (out: seq<string>)
    ensures |out| == RowStart(|tlds|, |domains|)
    decreases |tlds|
  {
    if |tlds| == 0 then []
    else
      var m := |tlds| - 1;
      ExpandDomains(tlds[..m], domains) + DomainRow(tlds[m], domains)
  }

  /**
   * TLD-major order: the block of `|domains|` entries starting at
   * `RowStart(i, |domains|)` is `domains` rewritten for `tlds[i]`.
   */
  lemma {:induction false} ExpandDomainsRowAt(tlds: seq<string>, domains: seq<string>, i: nat)
    requires i < |tlds|
    ensures RowStart(i, |domains|) + |domains| <= |ExpandDomains(tlds, domains)|
    ensures ExpandDomains(tlds, domains)[RowStart(i, |domains|)..RowStart(i, |domains|) + |domains|]
         == DomainRow(tlds[i], domains)
    decreases |tlds|
  {
    var m := |tlds| - 1;
    var n := |domains|;
    var start := RowStart(i, n);
    var prefix := ExpandDomains(tlds[..m], domains);
    var last := DomainRow(tlds[m], domains);
    assert ExpandDomains(tlds, domains) == prefix + last;
    if i < m {
      ExpandDomainsRowAt(tlds[..m], domains, i);
      RowStartMonotone(i, m, n);
      assert tlds[..m][i] == tlds[i];
      SliceOfConcatLeft(prefix, last, start, n);
    } else {
      SliceOfConcatRight(prefix, last);
    }
  }

  /** `ExpandDomainsRowAt` for every row at once. */
  lemma ExpandDomainsRows(tlds: seq<string>, domains: seq<string>)
    ensures forall i {:trigger tlds[i]} :: 0 <= i < |tlds| ==>
              RowStart(i, |domains|) + |domains| <= |ExpandDomains(tlds, domains)| &&
              ExpandDomains(tlds, domains)[RowStart(i, |domains|)..RowStart(i, |domains|) + |domains|]
                == DomainRow(tlds[i], domains)
  {
    forall i | 0 <= i < |tlds| {
      ExpandDomainsRowAt(tlds, domains, i);
    }
  }

  /** `domains[j]` rewritten for `tlds[i]` sits at `RowStart(i, |domains|) + j`. */
  lemma ExpandDomainsCell(tlds: seq<string>, domains: seq<string>, i: nat, j: nat)
    requires i < |tlds| && j < |domains|
    ensures RowStart(i, |domains|) + j < |ExpandDomains(tlds, domains)|
    ensures ExpandDomains(tlds, domains)[RowStart(i, |domains|) + j] == Replace(domains[j], GoogleDomain, tlds[i])
  {
    var out := ExpandDomains(tlds, domains);
    var start := RowStart(i, |domains|);
    var row := DomainRow(tlds[i], domains);
    assert start + j < |out| && out[start + j] == row[j] by {
      ExpandDomainsRowAt(tlds, domains, i);
      SliceAt(out, start, |domains|, row, j);
    }
    assert row[j] == Replace(domains[j], GoogleDomain, tlds[i]);
  }

  /** `ExpandDomainsCell` at the TLD-major index `i * |domains| + j` itself. */
  lemma ExpandDomainsCellProduct(tlds: seq<string>, domains: seq<string>, i: nat, j: nat)
    requires i < |tlds| && j < |domains|
    ensures i * |domains| + j < |ExpandDomains(tlds, domains)|
    ensures ExpandDomains(tlds, domains)[i * |domains| + j] == Replace(domains[j], GoogleDomain, tlds[i])
  {
    RowStartIsProduct(i, |domains|);
    ExpandDomainsCell(tlds, domains, i, j);
  }

  /** `host_permissions` grows to `|tlds| * |domains|` entries. */
  lemma ExpandDomainsLength(tlds: seq<string>, domains: seq<string>)
    ensures |ExpandDomains(tlds, domains)| == |tlds| * |domains|
  {
    RowStartIsProduct(|tlds|, |domains|);
  }

  /** The manifest's `host_permissions` is a JSON array of strings. */
  predicate HasHostPermissions(manifest: map<string, Value>)
  {
    && HostPermissions in manifest
    && manifest[HostPermissions].Arr?
    && forall v :: v in manifest[HostPermissions].items ==> v.Str?
  }

  /** The strings of a JSON array of strings. */
  function Strs(values: seq<Value>): (strs: seq<string>)
    requires forall v :: v in values ==> v.Str?
    ensures |strs| == |values|
    ensures forall k :: 0 <= k < |values| ==> values[k] == Str(strs[k])
  {
    if |values| == 0 then [] else [values[0].s] + Strs(values[1..])
  }

  /** Strings as a JSON array. */
  function StrValues(strs: seq<string>): (values: seq<Value>)
  {
    seq(|strs|, k requires 0 <= k < |strs| => Str(strs[k]))
  }

  /**
   * The script's manifest step: `host_permissions` is reassigned to its
   * expansion over `tlds`, and every other key keeps its value. With no
   * tld the old entries are never read, and the key is set to the empty
   * array whether or not the manifest had it.
   */
  function RewriteManifest(manifest: map<string, Value>, tlds: seq<string>): (out: map<string, Value>)
    requires |tlds| > 0 ==> HasHostPermissions(manifest)
    ensures out.Keys == manifest.Keys + {HostPermissions}
    ensures HasHostPermissions(out)
    ensures forall key :: key in manifest && key != HostPermissions ==> out[key] == manifest[key]
    ensures |tlds| == 0 ==> out[HostPermissions] == Arr([])
    ensures HasHostPermissions(manifest) ==>
              Strs(out[HostPermissions].items) == ExpandDomains(tlds, Strs(manifest[HostPermissions].items))
  {
    var domains := if HasHostPermissions(manifest) then Strs(manifest[HostPermissions].items) else [];
    var out := manifest[HostPermissions := Arr(StrValues(ExpandDomains(tlds, domains)))];
    assert Strs(out[HostPermissions].items) == ExpandDomains(tlds, domains);
    out
  }
}
