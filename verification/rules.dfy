/**
 * The declarativeNetRequest rule record shared by the rule generator and the
 * background script that installs the generated rules.
 */
module Rules {

  /** The conventional Some/None datatype, used for a JSON key that may be absent. */
  datatype Option<+T> = None | Some(value: T)

  /**
   * A parsed JSON value. Numbers are integers only: every number the rule
   * files and the manifest carry (ids, priorities, versions) is an integer.
   */
  datatype Value =
    | Null
    | Bool(b: bool)
    | Num(n: int)
    | Str(s: string)
    | Arr(items: seq<Value>)
    | Obj(fields: map<string, Value>)

  /**
   * One declarativeNetRequest rule: its `id`, its `condition.regexFilter`
   * (absent for a rule that matches by some other filter), and every other
   * field of the rule and of its condition, kept as an uninterpreted payload.
   */
  datatype Rule = Rule(id: int, regexFilter: Option<string>, rest: Value)

  /** The ids of `rules`, in order. */
  function Ids(rules: seq<Rule>): (ids: seq<int>)
    ensures |ids| == |rules|
    ensures forall k :: 0 <= k < |rules| ==> ids[k] == rules[k].id
  {
    if |rules| == 0 then [] else [rules[0].id] + Ids(rules[1..])
  }

  /** The set of ids carried by `rules`. */
  function IdSet(rules: seq<Rule>): set<int>
  {
    set r | r in rules :: r.id
  }

  /** No two rules of `rules` share an id. */
  predicate UniqueIds(rules: seq<Rule>)
  {
    forall a, b :: 0 <= a < b < |rules| ==> rules[a].id != rules[b].id
  }
}
