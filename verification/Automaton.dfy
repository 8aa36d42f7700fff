/**
  The grammar object: a set of settled pushdown stacks that code points, pieces of text and tokens
  move forward, and that always stands for the rest of the language of the root rule.
  */
module Automaton {
  import opened Collections
  import opened GrammarElements
  import opened Language
  import opened StackExpansion
  import opened RuleUse
  import opened Worklist
  import opened LeftReferences
  import opened Termination
  import opened LeftRecursion
  import opened Relations
  import opened CharStep
  import opened Utf8
  import opened PartialChar

  // ---------------------------------------------------------------------------------------
  // Loading
  // ---------------------------------------------------------------------------------------

  /** A definition up to and including its first END. */
  function UpToEnd(def: Rule): (r: Rule)
    ensures (exists i :: 0 <= i < |def| && def[i].kind.END?) ==>
      r != [] && r[|r| - 1].kind.END? && forall i :: 0 <= i < |r| - 1 ==> !r[i].kind.END?
    ensures r <= def
  {
    if def == [] then []
    else if def[0].kind.END? then [def[0]]
    else [def[0]] + UpToEnd(def[1..])
  }

  function LoadedRules(defs: Rules): (rules: Rules)
    ensures |rules| == |defs|
    ensures forall r :: 0 <= r < |defs| ==> rules[r] == UpToEnd(defs[r])
  {
    seq(|defs|, r requires 0 <= r < |defs| => UpToEnd(defs[r]))
  }

  /** What the loader takes for granted of every definition: it ends, and its classes are well nested. */
  predicate Loadable(def: Rule) {
    (exists i :: 0 <= i < |def| && def[i].kind.END?) && WellNested(def)
  }

  lemma LoadedIsWellShaped(def: Rule)
    requires Loadable(def)
    ensures WellShaped(UpToEnd(def))
  {
    var r := UpToEnd(def);
    forall i | 0 <= i < |r|
      ensures FollowsWell(r, i)
    {
      assert FollowsWell(def, i);
    }
  }

  lemma {:induction false} UpToEndWhole(def: Rule)
    requires |def| > 0 && forall i :: 0 <= i < |def| ==> (def[i].kind.END? <==> i == |def| - 1)
    ensures UpToEnd(def) == def
    decreases |def|
  {
    if !def[0].kind.END? {
      var rest := def[1..];
      assert forall i :: 0 <= i < |rest| ==> rest[i] == def[i + 1];
      UpToEndWhole(rest);
    }
  }

  /** A table from the parser loads as it is, and its references need no check. */
  lemma ParsedRulesLoad(rules: Rules)
    requires WellFormed(rules)
    ensures forall r :: 0 <= r < |rules| ==> Loadable(rules[r])
    ensures LoadedRules(rules) == rules && RefsDefined(rules)
  {
    forall r | 0 <= r < |rules|
      ensures Loadable(rules[r]) && UpToEnd(rules[r]) == rules[r]
    {
      UpToEndWhole(rules[r]);
      assert rules[r][|rules[r]| - 1].kind.END?;
    }
  }

  /** Every rule reference points at a rule that exists and is defined. */
  predicate RefsDefined(rules: Rules) {
    forall r, i :: 0 <= r < |rules| && 0 <= i < |rules[r]| && rules[r][i].kind.RULE_REF? ==>
      rules[r][i].value < |rules| && rules[rules[r][i].value] != []
  }

  /** The languages of the alternates of a rule, as stacks, make up the language of the rule. */
  lemma AlternatesDerive(rules: Rules, q: nat, w: Word)
    requires WellFormed(rules) && q < |rules|
    ensures InRule(rules, q, w) <==> exists a :: AltStart(rules[q], a) && InStack(rules, Push(rules, [], q, a), w)
  {
    if InRule(rules, q, w) {
      var n: nat :| RuleDerives(rules, q, w, n);
      var a := RuleDerivesAlternate(rules, q, w, n);
      assert w[..|w|] == w && w[|w|..] == [];
      assert StackDerives(rules, [], w[|w|..], 0);
      PushJoin(rules, [], q, a, w, |w|, n - 1, 0);
    }
    if exists a :: AltStart(rules[q], a) && InStack(rules, Push(rules, [], q, a), w) {
      var a :| AltStart(rules[q], a) && InStack(rules, Push(rules, [], q, a), w);
      var n: nat :| StackDerives(rules, Push(rules, [], q, a), w, n);
      var k, m := PushSplit(rules, [], q, a, w, n);
      assert w[..k] == w;
      RuleDerivesBy(rules, q, w, m, a);
    }
  }

  /** `t` comes from one of the alternates of `q` that start before `limit`. */
  ghost predicate Initial(rules: Rules, q: nat, limit: nat, t: Stack)
    requires WellFormed(rules) && q < |rules|
  {
    exists a: nat :: a < limit && AltStart(rules[q], a) && AdvancesTo(rules, Push(rules, [], q, a), t)
  }

  /** The settled stacks with which a run starts: one expansion for every alternate of the root rule. */
  method InitialStacks(rules: Rules, start: nat) returns (stacks: seq<Stack>)
    requires WellFormed(rules) && GrowthFreeFrom(rules, start) && start < |rules|
    ensures forall t :: t in stacks <==> Initial(rules, start, |rules[start]|, t)
    ensures NoDuplicates(stacks)
  {
    stacks := [];
    var pos, more := 0, true;
    while more
      invariant more ==> AltStart(rules[start], pos)
      invariant !more ==> pos == |rules[start]|
      invariant AreInitial(rules, start, pos, stacks) && NoDuplicates(stacks)
      decreases more, |rules[start]| - pos
    {
      stacks, pos, more := AddAlternate(rules, start, pos, stacks);
    }
    forall t
      ensures t in stacks <==> Initial(rules, start, |rules[start]|, t)
    {
      assert InitialIn(rules, start, pos, stacks, t);
    }
  }

  /** The stacks hold exactly what comes from the alternates before `limit`. */
  ghost predicate AreInitial(rules: Rules, q: nat, limit: nat, stacks: seq<Stack>)
    requires WellFormed(rules) && q < |rules|
  {
    forall t :: InitialIn(rules, q, limit, stacks, t)
  }

  ghost predicate InitialIn(rules: Rules, q: nat, limit: nat, stacks: seq<Stack>, t: Stack)
    requires WellFormed(rules) && q < |rules|
  {
    t in stacks <==> Initial(rules, q, limit, t)
  }

  /** Expands the alternate at `pos` and goes to the next one, if there is one. */
  method AddAlternate(rules: Rules, start: nat, pos: nat, before: seq<Stack>)
    returns (stacks: seq<Stack>, next: nat, more: bool)
    requires WellFormed(rules) && GrowthFreeFrom(rules, start) && start < |rules| && AltStart(rules[start], pos)
    requires AreInitial(rules, start, pos, before) && NoDuplicates(before)
    ensures pos < next <= |rules[start]| && AreInitial(rules, start, next, stacks) && NoDuplicates(stacks)
    ensures if more then AltStart(rules[start], next) else next == |rules[start]|
  {
    var stack: Stack := [];
    if !IsEndOfSequence(rules[start][pos]) {
      stack := [Frame(start, pos)];
    }
    assert stack == Push(rules, [], start, pos);
    UsesItself(rules, start);
    UsedAreTame(rules, start, stack);
    AltStartIsSymbol(rules, start, pos);
    TameTerminates(rules, stack);
    stacks := AdvanceStack(rules, stack, before);
    var end := ScanAlternate(rules[start], pos);
    next := end + 1;
    forall t
      ensures InitialIn(rules, start, next, stacks, t)
    {
      assert InitialIn(rules, start, pos, before, t);
      InitialNext(rules, start, pos, next, t);
    }
    more := rules[start][end].kind.ALT?;
  }

  /** The end of the alternate. */
  method ScanAlternate(rule: Rule, from: nat) returns (pos: nat)
    requires WellShaped(rule) && from < |rule|
    ensures from <= pos < |rule| && IsEndOfSequence(rule[pos])
    ensures forall i :: from <= i < pos ==> !IsEndOfSequence(rule[i])
    ensures !rule[pos].kind.ALT? ==> pos == |rule| - 1
    ensures rule[pos].kind.ALT? ==> AltStart(rule, pos + 1)
  {
    pos := from;
    while !IsEndOfSequence(rule[pos])
      invariant from <= pos < |rule|
      invariant forall i :: from <= i < pos ==> !IsEndOfSequence(rule[i])
      decreases |rule| - pos
    {
      pos := pos + 1;
    }
  }

  lemma InitialNext(rules: Rules, q: nat, from: nat, limit: nat, t: Stack)
    requires WellFormed(rules) && q < |rules| && AltStart(rules[q], from) && from < limit <= |rules[q]|
    requires forall i :: from <= i < limit - 1 ==> !IsEndOfSequence(rules[q][i])
    ensures Initial(rules, q, limit, t) <==>
      Initial(rules, q, from, t) || AdvancesTo(rules, Push(rules, [], q, from), t)
  {
    if Initial(rules, q, limit, t) {
      var a: nat :| a < limit && AltStart(rules[q], a) && AdvancesTo(rules, Push(rules, [], q, a), t);
      assert a <= from;
    }
  }

  lemma InitialDerive(rules: Rules, q: nat, stacks: seq<Stack>, w: Word)
    requires WellFormed(rules) && q < |rules|
    requires forall t :: t in stacks <==> Initial(rules, q, |rules[q]|, t)
    ensures InStacks(rules, stacks, w) <==> InRule(rules, q, w)
  {
    if InStacks(rules, stacks, w) {
      var t :| t in stacks && InStack(rules, t, w);
      InitialSound(rules, q, t, w);
    }
    if InRule(rules, q, w) {
      var t := InitialComplete(rules, q, w);
    }
  }

  lemma InitialSound(rules: Rules, q: nat, t: Stack, w: Word)
    requires WellFormed(rules) && q < |rules| && Initial(rules, q, |rules[q]|, t) && InStack(rules, t, w)
    ensures InRule(rules, q, w)
  {
    var a: nat :| a < |rules[q]| && AltStart(rules[q], a) && AdvancesTo(rules, Push(rules, [], q, a), t);
    ReachesSound(rules, Push(rules, [], q, a), t, w);
    AlternatesDerive(rules, q, w);
  }

  lemma InitialComplete(rules: Rules, q: nat, w: Word) returns (t: Stack)
    requires WellFormed(rules) && q < |rules| && InRule(rules, q, w)
    ensures Initial(rules, q, |rules[q]|, t) && InStack(rules, t, w)
  {
    AlternatesDerive(rules, q, w);
    var a :| AltStart(rules[q], a) && InStack(rules, Push(rules, [], q, a), w);
    AltStartIsSymbol(rules, q, a);
    var n: nat :| StackDerives(rules, Push(rules, [], q, a), w, n);
    t := AdvanceComplete(rules, Push(rules, [], q, a), w, n);
  }

  lemma InitialSettled(rules: Rules, q: nat, t: Stack)
    requires WellFormed(rules) && q < |rules| && Initial(rules, q, |rules[q]|, t)
    ensures ValidStack(rules, t) && Settled(rules, t) && Within(t, UsedRules(rules, q))
  {
    var a: nat :| a < |rules[q]| && AltStart(rules[q], a) && AdvancesTo(rules, Push(rules, [], q, a), t);
    AltStartIsSymbol(rules, q, a);
    ReachesValid(rules, Push(rules, [], q, a), t);
    UsesItself(rules, q);
    UsedRulesClosed(rules, q);
    ReachesWithin(rules, Push(rules, [], q, a), t, UsedRules(rules, q));
  }

  /** Checks that every reference is defined. */
  method CheckRefs(rules: Rules) returns (ok: bool)
    ensures ok <==> RefsDefined(rules)
  {
    for r := 0 to |rules|
      invariant forall x, i :: 0 <= x < r && 0 <= i < |rules[x]| && rules[x][i].kind.RULE_REF? ==>
        rules[x][i].value < |rules| && rules[rules[x][i].value] != []
    {
      for i := 0 to |rules[r]|
        invariant forall j :: 0 <= j < i && rules[r][j].kind.RULE_REF? ==>
          rules[r][j].value < |rules| && rules[rules[r][j].value] != []
      {
        var elem := rules[r][i];
        if elem.kind.RULE_REF? {
          if elem.value >= |rules| || rules[elem.value] == [] {
            return false;
          }
        }
      }
    }
    return true;
  }

  // ---------------------------------------------------------------------------------------
  // Running
  // ---------------------------------------------------------------------------------------

  /** Adds what `stack` becomes by `chr`; stacks that wait for a token, or for nothing, do not take it. */
  method AcceptChr(rules: Rules, stack: Stack, chr: CodePoint, newStacks: seq<Stack>) returns (res: seq<Stack>)
    requires WellFormed(rules) && Tame(rules, stack) && ValidStack(rules, stack) && Settled(rules, stack)
    ensures newStacks <= res && (NoDuplicates(newStacks) ==> NoDuplicates(res))
    ensures forall t :: t in res <==> t in newStacks || Follows(rules, stack, chr, t)
  {
    res := newStacks;
    if stack == [] {
      return;
    }
    var pos := Top(stack);
    if IsToken(ElementAt(rules, pos)) {
      return;
    }
    AfterSymbol(rules, pos);
    var matched, next := MatchChar(rules[pos.rule], pos.idx, chr);
    if matched {
      var newStack := stack[..|stack| - 1];
      if !IsEndOfSequence(rules[pos.rule][next]) {
        newStack := newStack + [Frame(pos.rule, next)];
      }
      assert newStack == AfterTop(rules, stack);
      AfterTopIsValid(rules, stack);
      AfterTopWithin(rules, stack, GrowthFreeRules(rules));
      TameTerminates(rules, newStack);
      res := AdvanceStack(rules, newStack, newStacks);
    }
  }

  /** All stacks in turn. */
  method AcceptAll(rules: Rules, stacks: seq<Stack>, chr: CodePoint) returns (next: seq<Stack>)
    requires WellFormed(rules) && AllTame(rules, stacks) && AllSettled(rules, stacks)
    ensures NoDuplicates(next) && AllSettled(rules, next)
    ensures AreFollowers(rules, stacks, chr, next)
  {
    next := [];
    for i := 0 to |stacks|
      invariant NoDuplicates(next)
      invariant AreFollowers(rules, stacks[..i], chr, next)
    {
      ghost var before := next;
      next := AcceptChr(rules, stacks[i], chr, next);
      FollowersMore(rules, stacks, i, chr, before, next);
    }
    assert stacks[..|stacks|] == stacks;
    forall t | t in next
      ensures ValidStack(rules, t) && Settled(rules, t)
    {
      assert FollowerIn(rules, stacks, chr, next, t);
      FollowersSettled(rules, stacks, chr, t);
    }
  }

  lemma FollowersMore(rules: Rules, stacks: seq<Stack>, i: nat, chr: CodePoint, before: seq<Stack>, next: seq<Stack>)
    requires WellFormed(rules) && i < |stacks| && AreFollowers(rules, stacks[..i], chr, before)
    requires forall t :: t in next <==> t in before || Follows(rules, stacks[i], chr, t)
    ensures AreFollowers(rules, stacks[..i + 1], chr, next)
  {
    var taken := stacks[..i + 1];
    assert taken == stacks[..i] + [stacks[i]];
    forall t
      ensures FollowerIn(rules, taken, chr, next, t)
    {
      assert FollowerIn(rules, stacks[..i], chr, before, t);
    }
  }

  /** The stacks derive `w` exactly if the root rule derives the history followed by `w`. */
  ghost predicate StandFor(rules: Rules, start: nat, stacks: seq<Stack>, history: Word, w: Word) {
    InStacks(rules, stacks, w) <==> InRule(rules, start, history + w)
  }

  /** If the stacks derive what is behind the history, their followers derive what is behind one code point more. */
  lemma StepTracks(rules: Rules, start: nat, stacks: seq<Stack>, history: Word, chr: CodePoint, next: seq<Stack>)
    requires WellFormed(rules) && AllSettled(rules, stacks)
    requires AreFollowers(rules, stacks, chr, next)
    requires forall w: Word :: |w| >= 1 ==> StandFor(rules, start, stacks, history, w)
    ensures forall w: Word :: StandFor(rules, start, next, history + [chr], w)
  {
    forall w: Word
      ensures StandFor(rules, start, next, history + [chr], w)
    {
      assert StandFor(rules, start, stacks, history, [chr] + w);
      FollowersDerive(rules, stacks, chr, next, w);
      assert history + [chr] + w == history + ([chr] + w);
    }
  }

  /** What changes in a grammar while it runs. */
  datatype Snapshot = Snapshot(stacks: seq<Stack>, partial: PartialUtf8, history: Word)

  class Grammar {
    const rules: Rules
    ghost const start: nat
    var stacks: seq<Stack>
    var partial: PartialUtf8
    ghost var history: Word  // the code points taken so far

    ghost predicate Valid()
      reads this
    {
      && WellFormed(rules) && GrowthFreeFrom(rules, start) && start < |rules|
      && AllWithin(stacks, UsedRules(rules, start)) && AllSettled(rules, stacks) && NoDuplicates(stacks)
      && Bounded(partial)
    }

    ghost function State(): Snapshot
      reads this
    {
      Snapshot(stacks, partial, history)
    }

    /** For words of at least `k` code points: the stacks derive what the root rule derives behind the history. */
    ghost predicate Tracks(k: nat)
      reads this
    {
      forall w: Word :: |w| >= k ==> StandFor(rules, start, stacks, history, w)
    }

    constructor (rules: Rules, start: nat, stacks: seq<Stack>)
      ensures this.rules == rules && this.start == start && this.stacks == stacks
      ensures partial == PartialUtf8(0, 0) && history == []
    {
      this.rules := rules;
      this.start := start;
      this.stacks := stacks;
      partial := PartialUtf8(0, 0);
      history := [];
    }

    /**
      Loads a grammar, or turns it down. For the grammars that pass the left-recursion check the
      caller answers for termination of the worklist.
      */
    static method Init(defs: Rules, start: nat) returns (g: Grammar?)
      requires start < |defs| && forall r :: 0 <= r < |defs| ==> Loadable(defs[r])
      requires RefsDefined(LoadedRules(defs)) && Acyclic(CheckedGraph(LoadedRules(defs))) ==>
        GrowthFreeFrom(LoadedRules(defs), start)
      ensures g == null <==> !RefsDefined(LoadedRules(defs)) || !Acyclic(CheckedGraph(LoadedRules(defs)))
      ensures g != null ==> fresh(g) && g.Valid() && g.Tracks(0) && g.history == []
      ensures g != null ==> g.rules == LoadedRules(defs) && g.start == start && g.partial == PartialUtf8(0, 0)
    {
      var rules := LoadedRules(defs);
      var ok := CheckRefs(rules);
      if !ok {
        return null;
      }
      forall r | 0 <= r < |rules|
        ensures WellShaped(rules[r])
      {
        LoadedIsWellShaped(defs[r]);
      }
      var recursive := HasLeftRecursion(rules);
      if recursive {
        return null;
      }
      var stacks := InitialStacks(rules, start);
      forall t | t in stacks
        ensures ValidStack(rules, t) && Settled(rules, t) && Within(t, UsedRules(rules, start))
      {
        InitialSettled(rules, start, t);
      }
      g := new Grammar(rules, start, stacks);
      forall w: Word
        ensures StandFor(g.rules, g.start, g.stacks, g.history, w)
      {
        assert [] + w == w;
        InitialDerive(rules, start, stacks, w);
      }
    }

    /** One code point. */
    method Accept(chr: CodePoint)
      requires Valid()
      modifies this`stacks, this`history
      ensures Valid() && history == old(history) + [chr]
      ensures AreFollowers(rules, old(stacks), chr, stacks)
      ensures old(Tracks(1)) ==> Tracks(0)
    {
      forall s | s in stacks
        ensures Tame(rules, s)
      {
        UsedAreTame(rules, start, s);
      }
      var next := AcceptAll(rules, stacks, chr);
      UsedRulesClosed(rules, start);
      FollowersWithin(rules, stacks, chr, next, UsedRules(rules, start));
      if Tracks(1) {
        StepTracks(rules, start, stacks, history, chr, next);
      }
      stacks := next;
      history := history + [chr];
    }

    /** A piece of text, decoded from where the last piece stopped. False stands for the exception. */
    method AcceptStr(piece: seq<Byte>) returns (ok: bool)
      requires Valid()
      modifies this
      ensures Valid() && (ok <==> stacks != [])
      ensures var d := Decode(piece, old(partial));
        d.codePoints != [] && partial == d.partial && history == old(history) + d.codePoints[..|d.codePoints| - 1]
      ensures old(Tracks(0)) ==> Tracks(0)
    {
      var codePoints, p := DecodeUtf8(piece, partial);
      DecodeBounded(piece, partial);
      ghost var before := history;
      for i := 0 to |codePoints| - 1
        invariant Valid() && partial == old(partial)
        invariant history == before + codePoints[..i]
        invariant old(Tracks(0)) ==> Tracks(0)
      {
        Accept(codePoints[i]);
        assert before + codePoints[..i] + [codePoints[i]] == before + codePoints[..i + 1];
      }
      partial := p;
      ok := stacks != [];
    }

    /** The grammar may end here if and only if the code points so far are a word of the root rule. */
    lemma EmptyStackMeansWord()
      requires Valid() && Tracks(0)
      ensures [] in stacks <==> InRule(rules, start, history)
    {
      var none: Word := [];
      assert history + none == history;
      assert StandFor(rules, start, stacks, history, none);
      forall s | s in stacks
        ensures InStack(rules, s, none) <==> s == []
      {
        SettledEmptyWord(rules, s);
      }
    }

    /** Without stacks no continuation is in the language. */
    lemma NoStacksNoContinuation(w: Word)
      requires Valid() && Tracks(0) && stacks == []
      ensures !InRule(rules, start, history + w)
    {
      assert StandFor(rules, start, stacks, history, w);
    }
  }
}
