/**
  The parser's table: symbols, rules, and the rewriting of repetitions into rules. Every method is
  proved against the function of RuleTable that says what the table is afterwards.
  */
module GrammarParser {
  import opened GrammarElements
  import opened Language
  import opened Repetition
  import opened GrammarSyntax
  import opened RuleTable

  lemma {:induction false} CopiesAppend(s: seq<Element>, k: nat)
    ensures Copies(s, k) + s == Copies(s, k + 1)
    decreases k
  {
    if k == 0 {
      assert Copies(s, 1) == s + Copies(s, 0) == s;
    } else {
      CopiesAppend(s, k - 1);
      assert s + Copies(s, k - 1) + s == s + (Copies(s, k - 1) + s);
    }
  }

  /** The rule with its last symbol `min` times. */
  method RepeatCopies(rule: seq<Element>, lastSymStart: nat, min: nat) returns (res: seq<Element>)
    requires lastSymStart <= |rule|
    ensures res == rule[..lastSymStart] + Copies(rule[lastSymStart..], min)
  {
    var prevRule := rule[lastSymStart..];
    if min == 0 {
      return rule[..lastSymStart];
    }
    res := rule;
    assert Copies(prevRule, 1) == prevRule + Copies(prevRule, 0) == prevRule;
    for i := 1 to min
      invariant res == rule[..lastSymStart] + Copies(prevRule, i)
    {
      CopiesAppend(prevRule, i);
      res := res + prevRule;
    }
  }

  /** A copy of the symbol, a reference to the rule of one copy less or to itself, and an empty alternate. */
  method CloseRecRule(prevRule: seq<Element>, recRuleId: nat, i: nat, lastRecRuleId: nat, max: Bound)
    returns (recRule: Rule)
    ensures recRule == RecRule(prevRule, if max.NoMax? then [recRuleId] else if i > 0 then [lastRecRuleId] else [])
  {
    recRule := prevRule;
    if i > 0 || max.NoMax? {
      recRule := recRule + [Element(RULE_REF, if max.NoMax? then recRuleId else lastRecRuleId)];
    }
    recRule := recRule + [Element(ALT, 0)];
    recRule := recRule + [Element(END, 0)];
  }

  class Parser {
    var symbolIds: map<Name, nat>
    var rules: Rules

    function State(): Table
      reads this
    {
      Table(symbolIds, rules)
    }

    ghost predicate Valid()
      reads this
    {
      Sound(State())
    }

    constructor ()
      ensures Valid() && symbolIds == map[] && rules == []
    {
      symbolIds := map[];
      rules := [];
    }

    /** The id of a name in the text; a new one if it was not seen before. */
    method GetSymbolId(name: Name) returns (id: nat)
      requires Valid() && UNDERSCORE !in name
      modifies this`symbolIds
      ensures Valid() && State() == Lookup(old(State()), name) && Grown(old(State()), State())
      ensures name in symbolIds && symbolIds[name] == id < |symbolIds|
      ensures if name in old(symbolIds) then symbolIds == old(symbolIds) else id == |old(symbolIds)|
    {
      LookupSound(State(), name);
      var nextId := |symbolIds|;
      if name !in symbolIds {
        symbolIds := symbolIds[name := nextId];
      }
      id := symbolIds[name];
    }

    /** A new name that no text can hold, with the next id. */
    method GenerateSymbolId(base: Name) returns (id: nat)
      requires Valid() && UNDERSCORE !in base
      modifies this`symbolIds
      ensures Valid() && State() == Generate(old(State()), base) && Grown(old(State()), State())
      ensures GeneratedName(base, id) !in old(symbolIds) && id == |old(symbolIds)| && |symbolIds| == id + 1
    {
      GenerateSound(State(), base);
      id := |symbolIds|;
      symbolIds := symbolIds[GeneratedName(base, id) := id];
    }

    method AddRule(ruleId: nat, rule: Rule)
      requires Valid() && ruleId < |symbolIds| && WellShaped(rule) && RefsBelow(rule, |symbolIds|)
      modifies this`rules
      ensures Valid() && State() == Define(old(State()), ruleId, rule)
      ensures |rules| == if |old(rules)| <= ruleId then ruleId + 1 else |old(rules)|
    {
      DefineSound(State(), ruleId, rule);
      if |rules| <= ruleId {
        rules := rules + seq(ruleId + 1 - |rules|, _ => []);
      }
      rules := rules[ruleId := rule];
    }

    /** The rules S'(1), S'(2), ... of a bounded repetition, or the one rule of an unbounded one. */
    method GenerateRules(ruleName: Name, prevRule: seq<Element>, nOpt: nat, max: Bound) returns (lastRecRuleId: nat)
      requires Valid() && UNDERSCORE !in ruleName && IsBody(prevRule, |symbolIds|) && prevRule != []
      modifies this
      ensures State() == Chain(old(State()), ruleName, prevRule, max, nOpt)
      ensures nOpt > 0 ==> lastRecRuleId == |old(symbolIds)| + (nOpt - 1)
    {
      ghost var t := State();
      lastRecRuleId := 0;
      for i := 0 to nOpt
        invariant State() == Chain(t, ruleName, prevRule, max, i)
        invariant i > 0 ==> lastRecRuleId == |t.ids| + (i - 1)
      {
        lastRecRuleId := GenerateNext(ruleName, prevRule, t, i, lastRecRuleId, max);
      }
    }

    /** The next rule of a chain. */
    method GenerateNext(ruleName: Name, prevRule: seq<Element>, ghost t: Table, i: nat, lastRecRuleId: nat, max: Bound)
      returns (recRuleId: nat)
      requires Sound(t) && State() == Chain(t, ruleName, prevRule, max, i)
      requires UNDERSCORE !in ruleName && IsBody(prevRule, |t.ids|) && prevRule != []
      requires i > 0 ==> lastRecRuleId == |t.ids| + (i - 1)
      modifies this
      ensures recRuleId == |t.ids| + i && State() == Chain(t, ruleName, prevRule, max, i + 1)
    {
      ChainSound(t, ruleName, prevRule, max, i);
      recRuleId := GenerateRule(ruleName, prevRule, |t.ids|, i, lastRecRuleId, max);
    }

    /** One of these rules. */
    method GenerateRule(ruleName: Name, prevRule: seq<Element>, ghost first: nat, i: nat, lastRecRuleId: nat,
                        max: Bound) returns (recRuleId: nat)
      requires Valid() && UNDERSCORE !in ruleName && |symbolIds| == first + i
      requires IsBody(prevRule, |symbolIds|) && prevRule != []
      requires i > 0 ==> lastRecRuleId == first + (i - 1)
      modifies this
      ensures recRuleId == first + i
      ensures State() == Define(Generate(old(State()), ruleName), first + i, RecRule(prevRule, NextOf(first, i, max)))
    {
      recRuleId := GenerateSymbolId(ruleName);
      var recRule := CloseRecRule(prevRule, recRuleId, i, lastRecRuleId, max);
      assert recRule == RecRule(prevRule, NextOf(first, i, max));
      assert WellShaped(recRule) && RefsBelow(recRule, |symbolIds|) by {
        RecRuleOk(prevRule, NextOf(first, i, max), |symbolIds|);
      }
      AddRule(recRuleId, recRule);
    }

    /**
      Rewrites the last symbol of the rule, repeated `min` up to `max` times. False stands for the
      exception. In the new table the new tail derives exactly the powers of the old one, whose
      language is still what it was.
      */
    method HandleRepetitions(ruleName: Name, rule: seq<Element>, lastSymStart: nat, nPrevRules: nat, min: nat,
                             max: Bound) returns (ok: bool, res: seq<Element>, nRules: nat)
      requires Valid() && UNDERSCORE !in ruleName && lastSymStart <= |rule| && IsBody(rule[lastSymStart..], |symbolIds|)
      requires nPrevRules >= 1 && (max.Max? ==> min <= max.value)
      modifies this
      ensures Valid() && Grown(old(State()), State())
      ensures ok <==> lastSymStart < |rule| && nPrevRules * TotalRules(min, max) <= MAX_REPETITION_THRESHOLD
      ensures !ok ==> State() == old(State())
      ensures ok ==> lastSymStart <= |res| && res[..lastSymStart] == rule[..lastSymStart]
      ensures ok ==>
        Repeated(old(State()), ruleName, rule[lastSymStart..], nPrevRules, min, max) ==
          Output(State(), res[lastSymStart..], nRules)
      ensures ok ==> |symbolIds| == |old(symbolIds)| + GeneratedCount(min, max) && nRules >= 1
      ensures ok ==> IsBody(res[lastSymStart..], |symbolIds|)
      ensures ok ==> IsRepetition(old(rules), rules, rule[lastSymStart..], res[lastSymStart..], min, max)
    {
      if lastSymStart == |rule| {
        return false, rule, nPrevRules;
      }
      var totalRules := 1;
      if max.Max? && max.value > 0 {
        totalRules := max.value;
      } else if min > 0 {
        totalRules := min;
      }
      if nPrevRules * totalRules > MAX_REPETITION_THRESHOLD {
        return false, rule, nPrevRules;
      }
      nRules := nPrevRules * totalRules;
      ProductPositive(nPrevRules, totalRules);
      ghost var t, count := State(), GeneratedCount(min, max);
      ChainSound(t, ruleName, rule[lastSymStart..], max, count);
      res := Rewrite(ruleName, rule, lastSymStart, min, max);
      assert res[lastSymStart..] == Rewritten(rule[lastSymStart..], min, |t.ids|, count);
      RewrittenOk(rule[lastSymStart..], min, |t.ids|, count, |symbolIds|);
      ChainRepeats(t, State(), rule[lastSymStart..], min, max);
      ok := true;
    }

    /** The rewriting itself. */
    method Rewrite(ruleName: Name, rule: seq<Element>, lastSymStart: nat, min: nat, max: Bound)
      returns (res: seq<Element>)
      requires Valid() && UNDERSCORE !in ruleName && lastSymStart < |rule| && IsBody(rule[lastSymStart..], |symbolIds|)
      requires max.Max? ==> min <= max.value
      modifies this
      ensures State() == Chain(old(State()), ruleName, rule[lastSymStart..], max, GeneratedCount(min, max))
      ensures res == rule[..lastSymStart] + Rewritten(rule[lastSymStart..], min, |old(symbolIds)|,
        GeneratedCount(min, max))
    {
      res := RepeatCopies(rule, lastSymStart, min);
      var nOpt := if max.NoMax? then 1 else max.value - min;
      var lastRecRuleId := GenerateRules(ruleName, rule[lastSymStart..], nOpt, max);
      if nOpt > 0 {
        res := res + [Element(RULE_REF, lastRecRuleId)];
      }
    }
  }

  /** In the new table the new elements derive the powers of what the old elements derived in the old one. */
  ghost predicate IsRepetition(rules: Rules, rules': Rules, els: seq<Element>, els': seq<Element>, min: nat,
                               max: Bound) {
    forall w :: w in LanguageOf(rules', els') <==> InPowers(LanguageOf(rules, els), min, max, w)
  }

  /** Elements keep their language when the table grows. */
  lemma GrownLanguage(t: Table, t': Table, els: seq<Element>)
    requires Sound(t) && Grown(t, t') && RefsBelow(els, |t.ids|)
    ensures LanguageOf(t.rules, els) == LanguageOf(t'.rules, els)
  {
    var n := |t.ids|;
    assert ClosedBelow(t'.rules, n) by {
      forall q | 0 <= q < |t'.rules| && q < n
        ensures RefsBelow(t'.rules[q], n)
      {
        assert RuleAt(t.rules, q) == RuleAt(t'.rules, q);
      }
    }
    forall w: Word
      ensures w in LanguageOf(t.rules, els) <==> w in LanguageOf(t'.rules, els)
    {
      if w in LanguageOf(t.rules, els) {
        var k: nat :| Derives(t.rules, els, 0, w, k);
        LanguageKept(t.rules, t'.rules, n, els, 0, w, k);
      }
      if w in LanguageOf(t'.rules, els) {
        var k: nat :| Derives(t'.rules, els, 0, w, k);
        LanguageKept(t'.rules, t.rules, n, els, 0, w, k);
      }
    }
  }

  lemma ChainRepeats(t: Table, t': Table, s: seq<Element>, min: nat, max: Bound)
    requires Sound(t) && IsBody(s, |t.ids|) && s != [] && (max.Max? ==> min <= max.value)
    requires ChainOk(t, t', s, max, GeneratedCount(min, max))
    ensures IsRepetition(t.rules, t'.rules, s, Rewritten(s, min, |t.ids|, GeneratedCount(min, max)), min, max)
  {
    GrownLanguage(t, t', s);
    forall w
      ensures w in LanguageOf(t'.rules, Rewritten(s, min, |t.ids|, GeneratedCount(min, max)))
        <==> InPowers(LanguageOf(t.rules, s), min, max, w)
    {
      RewrittenMeaning(t'.rules, s, min, max, |t.ids|, GeneratedCount(min, max), w);
    }
  }

  /** Two operators in a row: the second one repeats what the first one made. */
  lemma TwoOperators(r0: Rules, r1: Rules, r2: Rules, s: seq<Element>, s1: seq<Element>, s2: seq<Element>,
                     min: nat, max: Bound, min': nat, max': Bound, w: Word)
    requires IsRepetition(r0, r1, s, s1, min, max) && IsRepetition(r1, r2, s1, s2, min', max')
    ensures w in LanguageOf(r2, s2)
      <==> exists k: nat, n: nat :: StackedBy(LanguageOf(r0, s), min, max, min', max', w, k, n)
  {
    assert LanguageOf(r1, s1) == Powers(LanguageOf(r0, s), min, max);
    StackedPowers(LanguageOf(r0, s), min, max, min', max', w);
  }
}
