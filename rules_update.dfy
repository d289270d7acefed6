/** The in-memory part of the rules-file update: drop every rule whose name
    contains "ASN", then, when there are ASNs, append one blocking rule whose
    expression lists them. Because the appended rule's own name contains "ASN",
    a second update replaces it rather than adding another. */
module RulesUpdate {
  import opened Common
  import opened Text

  /** One entry of the document's `rules` list. */
  datatype Rule = Rule(name: string, action: string, expression: string)

  const ASN_MARKER := "ASN"
  const ASN_RULE_NAME := "Block Known Bad ASNs (AbuseIPDB)"
  const BLOCK_ACTION := "block"
  const EXPRESSION_PREFIX := "(ip.geoip.asnum in {"
  const EXPRESSION_SUFFIX := "})"

  /** `"ASN" in rule["name"]`. */
  predicate IsAsnRule(r: Rule) {
    Contains(r.name, ASN_MARKER)
  }

  /** `f"(ip.geoip.asnum in {{{' '.join(map(str, asns))}}})"`. */
  function AsnExpression(asns: seq<nat>): string {
    EXPRESSION_PREFIX + JoinSpaces(Decimals(asns)) + EXPRESSION_SUFFIX
  }

  /** `map(str, asns)`. */
  function Decimals(asns: seq<nat>): (parts: seq<string>)
    ensures |parts| == |asns|
    ensures forall k :: 0 <= k < |asns| ==> parts[k] == Decimal(asns[k])
  {
    seq(|asns|, k requires 0 <= k < |asns| => Decimal(asns[k]))
  }

  /** Reads an ASN-membership expression back into its list of ASNs: the inverse
      of AsnExpression, used to state what the serialiser writes. */
  function ParseAsnExpression(s: string): Option<seq<nat>> {
    var p, q := |EXPRESSION_PREFIX|, |EXPRESSION_SUFFIX|;
    if |s| >= p + q && s[..p] == EXPRESSION_PREFIX && s[|s| - q..] == EXPRESSION_SUFFIX
    then ParseNumerals(SplitSpaces(s[p..|s| - q]))
    else None
  }

  /** The value of each part, provided every part is a non-empty digit string. */
  function ParseNumerals(parts: seq<string>): Option<seq<nat>>
    decreases |parts|
  {
    if parts == [] then Some([])
    else if !IsNumeral(parts[0]) then None
    else match ParseNumerals(parts[1..])
      case None => None
      case Some(rest) => Some([DigitsValue(parts[0])] + rest)
  }

  lemma {:induction false} ParseDecimals(asns: seq<nat>)
    ensures ParseNumerals(Decimals(asns)) == Some(asns)
    decreases |asns|
  {
    if asns != [] {
      assert Decimals(asns)[1..] == Decimals(asns[1..]);
      ParseDecimals(asns[1..]);
      assert asns == [asns[0]] + asns[1..];
    }
  }

  /** The expression is the fixed prefix, the decimal ASNs in input order joined
      by single spaces, and the fixed suffix: reading it back gives exactly the
      input list. The empty list, for which no rule is ever built, would give
      `{}`, which reads back as nothing. */
  lemma {:induction false} AsnExpressionRoundTrip(asns: seq<nat>)
    ensures ParseAsnExpression(AsnExpression(asns)) == if |asns| > 0 then Some(asns) else None
  {
    var middle := JoinSpaces(Decimals(asns));
    var s := AsnExpression(asns);
    var p, q := |EXPRESSION_PREFIX|, |EXPRESSION_SUFFIX|;
    assert s[..p] == EXPRESSION_PREFIX;
    assert s[|s| - q..] == EXPRESSION_SUFFIX;
    assert s[p..|s| - q] == middle;
    if |asns| > 0 {
      forall k | 0 <= k < |asns|
        ensures ' ' !in Decimals(asns)[k]
      {
        DecimalHasNoSpace(asns[k]);
      }
      SplitJoin(Decimals(asns));
      ParseDecimals(asns);
    } else {
      assert middle == "";
      assert IndexOfSpace("") == 0;
      assert SplitSpaces(middle) == [""];
    }
  }

  /** The rule the update appends: fixed name and action, the ASN expression,
      and a name that itself contains "ASN". */
  function AsnRule(asns: seq<nat>): (r: Rule)
    ensures IsAsnRule(r)
    ensures r.name == ASN_RULE_NAME && r.action == BLOCK_ACTION
    ensures r.expression == AsnExpression(asns)
  {
    assert StartsAt(ASN_RULE_NAME, ASN_MARKER, 16);
    Rule(ASN_RULE_NAME, BLOCK_ACTION, AsnExpression(asns))
  }

  function KeepRule(r: Rule): bool {
    !IsAsnRule(r)
  }

  /** `[rule for rule in rules if "ASN" not in rule["name"]]`: the rules without
      "ASN" in their name, each as often as before, in their original order. */
  function WithoutAsnRules(rules: seq<Rule>): (kept: seq<Rule>)
    ensures forall k :: 0 <= k < |kept| ==> !IsAsnRule(kept[k])
    ensures forall r :: r in rules && !IsAsnRule(r) ==> multiset(kept)[r] == multiset(rules)[r]
    ensures multiset(kept) <= multiset(rules)
    ensures IsSubsequence(kept, rules)
  {
    FilterExactly(rules, KeepRule);
    Filter(rules, KeepRule)
  }

  /** The rules list after the update, as a function of the list before it. */
  function UpdatedRules(rules: seq<Rule>, asns: seq<nat>): seq<Rule> {
    WithoutAsnRules(rules) + (if |asns| > 0 then [AsnRule(asns)] else [])
  }

  /** The number of rules whose name contains "ASN". */
  function CountAsnRules(rules: seq<Rule>): nat
    decreases |rules|
  {
    if rules == [] then 0
    else (if IsAsnRule(rules[0]) then 1 else 0) + CountAsnRules(rules[1..])
  }

  lemma {:induction false} CountAsnRulesNone(rules: seq<Rule>)
    requires forall k :: 0 <= k < |rules| ==> !IsAsnRule(rules[k])
    ensures CountAsnRules(rules) == 0
    decreases |rules|
  {
    if rules != [] {
      CountAsnRulesNone(rules[1..]);
    }
  }

  /** After an update exactly one rule mentions "ASN" when ASNs were given and
      none otherwise; the only such rule is the appended one, in last place. */
  lemma {:induction false} SingleAsnRuleAfterUpdate(rules: seq<Rule>, asns: seq<nat>)
    ensures CountAsnRules(UpdatedRules(rules, asns)) == if |asns| > 0 then 1 else 0
    ensures forall k :: 0 <= k < |UpdatedRules(rules, asns)| && IsAsnRule(UpdatedRules(rules, asns)[k]) ==>
              k == |UpdatedRules(rules, asns)| - 1 && UpdatedRules(rules, asns)[k] == AsnRule(asns)
    ensures |asns| > 0 ==> UpdatedRules(rules, asns)[|UpdatedRules(rules, asns)| - 1] == AsnRule(asns)
  {
    var kept := WithoutAsnRules(rules);
    var u := UpdatedRules(rules, asns);
    CountAsnRulesNone(kept);
    if |asns| > 0 {
      CountAsnRulesConcat(kept, [AsnRule(asns)]);
      assert [AsnRule(asns)][1..] == [];
    } else {
      assert u == kept;
    }
  }

  lemma {:induction false} CountAsnRulesConcat(a: seq<Rule>, b: seq<Rule>)
    ensures CountAsnRules(a + b) == CountAsnRules(a) + CountAsnRules(b)
    decreases |a|
  {
    if a == [] {
      assert a + b == b;
    } else {
      assert (a + b)[1..] == a[1..] + b;
      CountAsnRulesConcat(a[1..], b);
    }
  }

  /** The rules without "ASN" in their name come out of the update exactly as
      they went in: same rules, same multiplicities, same relative order. */
  lemma {:induction false} OtherRulesUntouched(rules: seq<Rule>, asns: seq<nat>)
    ensures WithoutAsnRules(UpdatedRules(rules, asns)) == WithoutAsnRules(rules)
    ensures UpdatedRules(rules, asns)[..|WithoutAsnRules(rules)|] == WithoutAsnRules(rules)
  {
    var kept := WithoutAsnRules(rules);
    var tail := if |asns| > 0 then [AsnRule(asns)] else [];
    FilterConcat(kept, tail, KeepRule);
    FilterKeepsAll(kept, KeepRule);
    FilterDropsAll(tail, KeepRule);
  }

  /** Updating twice with the same ASNs gives the same list as updating once. */
  lemma {:induction false} UpdateIdempotent(rules: seq<Rule>, asns: seq<nat>)
    ensures UpdatedRules(UpdatedRules(rules, asns), asns) == UpdatedRules(rules, asns)
  {
    OtherRulesUntouched(rules, asns);
  }

  /** The loaded rules document. Only its `rules` list is modelled; the update
      reassigns it and then appends to it in place. */
  class RuleDocument {
    var rules: seq<Rule>

    constructor (rules: seq<Rule>)
      ensures this.rules == rules
    {
      this.rules := rules;
    }

    /** The in-memory part of `update_rules_yaml(asns)`. */
    method ReplaceAsnRule(asns: seq<nat>)
      modifies this
      ensures rules == UpdatedRules(old(rules), asns)
    {
      rules := WithoutAsnRules(rules);
      if |asns| > 0 {
        var ruleBlock := AsnRule(asns);
        rules := rules + [ruleBlock];
      }
    }
  }
}
