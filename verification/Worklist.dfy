/**
  The worklist that expands a stack until only settled stacks are left.
  */
module Worklist {
  import opened Collections
  import opened GrammarElements
  import opened Language
  import opened StackExpansion

  /** A finite set of stacks that no expansion leaves. */
  ghost predicate ClosedUnderExpansion(rules: Rules, u: set<Stack>)
    requires WellFormed(rules)
  {
    forall s, t :: s in u && Expands(rules, s, t) ==> t in u
  }

  /** Only finitely many stacks can be reached from `s`: exactly then the worklist runs dry. */
  ghost predicate FinitelyExpandable(rules: Rules, s: Stack)
    requires WellFormed(rules)
  {
    exists u: set<Stack> :: s in u && ClosedUnderExpansion(rules, u)
  }

  /** Pushes one stack for every alternate of the rule that the top of `curr` refers to. */
  method PushAlternates(rules: Rules, curr: Stack, todo: seq<Stack>) returns (res: seq<Stack>)
    requires WellFormed(rules) && Expandable(rules, curr)
    ensures |todo| <= |res| && res[..|todo|] == todo
    ensures forall t :: t in res[|todo|..] <==> Expands(rules, curr, t)
  {
    var pos := Top(curr);
    var ruleId := ElementAt(rules, pos).value;
    var sub := rules[ruleId];
    var subpos := 0;
    var pushed: seq<Stack> := [];
    while true
      invariant AltStart(sub, subpos)
      invariant forall a: nat :: a < subpos && AltStart(sub, a) ==> Expansion(rules, curr, a) in pushed
      invariant forall t :: t in pushed ==> Expands(rules, curr, t)
      decreases |sub| - subpos
    {
      var next := curr[..|curr| - 1];
      if !IsEndOfSequence(rules[pos.rule][pos.idx + 1]) {
        next := next + [Frame(pos.rule, pos.idx + 1)];
      }
      if !IsEndOfSequence(sub[subpos]) {
        next := next + [Frame(ruleId, subpos)];
      }
      assert next == Expansion(rules, curr, subpos);
      pushed := pushed + [next];
      ghost var from := subpos;
      while !IsEndOfSequence(sub[subpos])
        invariant from <= subpos < |sub|
        invariant forall i :: from <= i < subpos ==> !IsEndOfSequence(sub[i])
        decreases |sub| - subpos
      {
        subpos := subpos + 1;
      }
      assert forall a: nat :: a <= subpos && AltStart(sub, a) ==> a <= from;
      if sub[subpos].kind.ALT? {
        subpos := subpos + 1;
      } else {
        assert subpos == |sub| - 1;
        break;
      }
    }
    res := todo + pushed;
  }

  /** Every expansion of a processed stack has been processed or is waiting. */
  ghost predicate Frontier(rules: Rules, seen: set<Stack>, todo: seq<Stack>)
    requires WellFormed(rules)
  {
    forall s, t :: s in seen && Expands(rules, s, t) ==> t in seen || t in todo
  }

  lemma FrontierAfter(rules: Rules, seen: set<Stack>, todo: seq<Stack>, curr: Stack, todo': seq<Stack>)
    requires WellFormed(rules) && Frontier(rules, seen, todo + [curr])
    requires forall t :: t in todo ==> t in todo'
    requires curr in seen || forall t :: Expands(rules, curr, t) ==> t in todo'
    ensures Frontier(rules, seen + {curr}, todo')
  {
  }

  /** The reachable stacks form a finite set that expansion does not leave. */
  lemma ReachSet(rules: Rules, start: Stack) returns (reach: set<Stack>)
    requires WellFormed(rules) && ValidStack(rules, start) && FinitelyExpandable(rules, start)
    ensures start in reach
    ensures forall s, t :: s in reach && Expands(rules, s, t) ==> t in reach
    ensures forall s :: s in reach ==> ValidStack(rules, s)
    ensures forall t {:trigger Reaches(rules, start, t)} :: Reaches(rules, start, t) <==> t in reach
  {
    var universe :| start in universe && ClosedUnderExpansion(rules, universe);
    reach := set s | s in universe && Reaches(rules, start, s);
    ReachesSelf(rules, start);
    forall s, t | s in reach && Expands(rules, s, t)
      ensures t in reach
    {
      ReachesThen(rules, start, s, t);
    }
    forall s | Reaches(rules, start, s)
      ensures s in reach && ValidStack(rules, s)
    {
      ReachesValid(rules, start, s);
      ReachesInvariant(rules, start, s, iset x | x in universe);
    }
  }

  /** When nothing is waiting, everything reachable has been processed. */
  lemma FrontierDone(rules: Rules, start: Stack, seen: set<Stack>)
    requires WellFormed(rules) && start in seen && Frontier(rules, seen, [])
    ensures forall t :: Reaches(rules, start, t) ==> t in seen
  {
    forall t | Reaches(rules, start, t)
      ensures t in seen
    {
      ReachesInvariant(rules, start, t, iset s | s in seen);
    }
  }

  method AppendUnique(stacks: seq<Stack>, s: Stack) returns (res: seq<Stack>)
    ensures stacks <= res
    ensures forall t :: t in res <==> t in stacks || t == s
    ensures NoDuplicates(stacks) ==> NoDuplicates(res)
  {
    res := if s in stacks then stacks else stacks + [s];
  }

  /** One stack of the worklist: a reference on top is expanded, any other stack is a result. */
  method Process(rules: Rules, curr: Stack, todo: seq<Stack>, stacks: seq<Stack>)
    returns (todo': seq<Stack>, stacks': seq<Stack>)
    requires WellFormed(rules) && ValidStack(rules, curr)
    ensures forall t :: t in todo' <==> t in todo || Expands(rules, curr, t)
    ensures stacks <= stacks' && (NoDuplicates(stacks) ==> NoDuplicates(stacks'))
    ensures forall t :: t in stacks' <==> t in stacks || (t == curr && Settled(rules, t))
  {
    todo', stacks' := todo, stacks;
    if curr == [] {
      stacks' := AppendUnique(stacks, curr);
      return;
    }
    assert ValidFrame(rules, Top(curr));
    match ElementAt(rules, Top(curr)).kind {
      case RULE_REF =>
        todo' := PushAlternates(rules, curr, todo);
        assert todo' == todo + todo'[|todo|..];
      case CHAR | CHAR_NOT | CHAR_ANY | TOKEN | TOKEN_NOT =>
        stacks' := AppendUnique(stacks, curr);
    }
  }

  /**
    Appends to `newStacks` the settled stacks that `stack` expands to, each once. It never pops a
    stack whose top is an END, an ALT or the middle of a class.
    */
  method AdvanceStack(rules: Rules, stack: Stack, newStacks: seq<Stack>) returns (res: seq<Stack>)
    requires WellFormed(rules) && ValidStack(rules, stack) && FinitelyExpandable(rules, stack)
    ensures newStacks <= res
    ensures forall t :: t in res <==> t in newStacks || AdvancesTo(rules, stack, t)
    ensures NoDuplicates(newStacks) ==> NoDuplicates(res)
  {
    ghost var reach := ReachSet(rules, stack);
    var todo := [stack];
    var seen: set<Stack> := {};
    res := newStacks;
    while todo != []
      invariant seen <= reach
      invariant forall s :: s in todo ==> s in reach
      invariant stack in todo || stack in seen
      invariant Frontier(rules, seen, todo)
      invariant newStacks <= res && (NoDuplicates(newStacks) ==> NoDuplicates(res))
      invariant forall t :: t in res <==> t in newStacks || (t in seen && Settled(rules, t))
      decreases |reach - seen|, |todo|
    {
      var curr := todo[|todo| - 1];
      var rest := todo[..|todo| - 1];
      assert todo == rest + [curr];
      todo := rest;
      if curr in seen {
        FrontierAfter(rules, seen, rest, curr, rest);
        assert seen + {curr} == seen;
        continue;
      }
      assert reach - (seen + {curr}) < reach - seen;
      todo, res := Process(rules, curr, rest, res);
      FrontierAfter(rules, seen, rest, curr, todo);
      seen := seen + {curr};
    }
    FrontierDone(rules, stack, seen);
  }
}
