/**
  Runs over several tokens: what a list of tokens and texts, handed over one after the other, makes
  of the stacks, of the decoder state and of the code points taken so far.
  */
module TokenRuns {
  import opened GrammarElements
  import opened Language
  import opened Utf8
  import opened Automaton
  import opened Tokens

  /** The text that was handed to the grammar for a token. */
  datatype Fed = Fed(token: nat, piece: seq<Byte>)

  function Front(fed: seq<Fed>): seq<Fed>
    requires fed != []
  {
    fed[..|fed| - 1]
  }

  function Last(fed: seq<Fed>): Fed
    requires fed != []
  {
    fed[|fed| - 1]
  }

  /** The decoder state behind the texts. */
  function PartialAfter(fed: seq<Fed>, p: PartialUtf8): PartialUtf8
    decreases |fed|
  {
    if fed == [] then p else Decode(Last(fed).piece, PartialAfter(Front(fed), p)).partial
  }

  /** The code points that the last text completes. */
  function LastWord(fed: seq<Fed>, p: PartialUtf8): Word
    requires fed != []
  {
    WordOf(Last(fed).piece, PartialAfter(Front(fed), p))
  }

  /** All code points that the texts complete. */
  function WordAfter(fed: seq<Fed>, p: PartialUtf8): Word
    decreases |fed|
  {
    if fed == [] then [] else WordAfter(Front(fed), p) + LastWord(fed, p)
  }

  /** `t` is one of the stacks that `s` becomes by the tokens. */
  ghost predicate FedFollows(rules: Rules, s: Stack, p: PartialUtf8, fed: seq<Fed>, t: Stack)
    requires WellFormed(rules)
    decreases |fed|, 1
  {
    if fed == [] then s == t else exists m :: FedVia(rules, s, p, fed, m, t)
  }

  /** All tokens but the last lead to `m`, and the last one from there to `t`. */
  ghost predicate FedVia(rules: Rules, s: Stack, p: PartialUtf8, fed: seq<Fed>, m: Stack, t: Stack)
    requires WellFormed(rules) && fed != []
    decreases |fed|, 0
  {
    FedFollows(rules, s, p, Front(fed), m) && TokenFollows(rules, m, Last(fed).token, LastWord(fed, p), t)
  }

  lemma LastStep(rules: Rules, s: Stack, p: PartialUtf8, fed: seq<Fed>, t: Stack) returns (m: Stack)
    requires WellFormed(rules) && fed != [] && FedFollows(rules, s, p, fed, t)
    ensures FedVia(rules, s, p, fed, m, t)
  {
    m :| FedVia(rules, s, p, fed, m, t);
  }

  ghost predicate FedFollowsOne(rules: Rules, stacks: seq<Stack>, p: PartialUtf8, fed: seq<Fed>, t: Stack)
    requires WellFormed(rules)
  {
    exists s :: s in stacks && FedFollows(rules, s, p, fed, t)
  }

  ghost predicate FedFollowerIn(rules: Rules, stacks: seq<Stack>, p: PartialUtf8, fed: seq<Fed>, next: seq<Stack>,
                                t: Stack)
    requires WellFormed(rules)
  {
    t in next <==> FedFollowsOne(rules, stacks, p, fed, t)
  }

  /** `next` holds exactly what the stacks can become by the tokens. */
  ghost predicate AreFedFollowers(rules: Rules, stacks: seq<Stack>, p: PartialUtf8, fed: seq<Fed>, next: seq<Stack>)
    requires WellFormed(rules)
  {
    forall t :: FedFollowerIn(rules, stacks, p, fed, next, t)
  }

  /** No stack is left behind the tokens. */
  ghost predicate NoneSurvives(rules: Rules, stacks: seq<Stack>, p: PartialUtf8, fed: seq<Fed>)
    requires WellFormed(rules)
  {
    forall t :: !FedFollowsOne(rules, stacks, p, fed, t)
  }

  lemma NoneSurvivesIs(rules: Rules, stacks: seq<Stack>, p: PartialUtf8, fed: seq<Fed>, next: seq<Stack>)
    requires WellFormed(rules) && AreFedFollowers(rules, stacks, p, fed, next)
    ensures NoneSurvives(rules, stacks, p, fed) <==> next == []
  {
    if next == [] {
      forall t
        ensures !FedFollowsOne(rules, stacks, p, fed, t)
      {
        assert FedFollowerIn(rules, stacks, p, fed, next, t);
      }
    } else {
      assert FedFollowerIn(rules, stacks, p, fed, next, next[0]);
    }
  }

  /** What the grammar makes of the tokens: new stacks, a new decoder state, more code points taken. */
  ghost predicate Took(rules: Rules, before: Snapshot, fed: seq<Fed>, after: Snapshot)
    requires WellFormed(rules)
  {
    && AreFedFollowers(rules, before.stacks, before.partial, fed, after.stacks)
    && after.partial == PartialAfter(fed, before.partial)
    && after.history == before.history + WordAfter(fed, before.partial)
  }

  lemma TookNothing(rules: Rules, s: Snapshot)
    requires WellFormed(rules)
    ensures Took(rules, s, [], s)
  {
    forall t
      ensures FedFollowerIn(rules, s.stacks, s.partial, [], s.stacks, t)
    {
      assert FedFollows(rules, t, s.partial, [], t);
    }
  }

  /** One token more. */
  lemma TookMore(rules: Rules, before: Snapshot, fed: seq<Fed>, mid: Snapshot, f: Fed, after: Snapshot)
    requires WellFormed(rules) && Took(rules, before, fed, mid)
    requires AreTokenFollowers(rules, mid.stacks, f.token, WordOf(f.piece, mid.partial), after.stacks)
    requires after.partial == Decode(f.piece, mid.partial).partial
    requires after.history == mid.history + WordOf(f.piece, mid.partial)
    ensures Took(rules, before, fed + [f], after)
  {
    var more := fed + [f];
    assert Front(more) == fed && Last(more) == f;
    forall t
      ensures FedFollowerIn(rules, before.stacks, before.partial, more, after.stacks, t)
    {
      FollowersOfMore(rules, before.stacks, before.partial, fed, mid.stacks, f, after.stacks, t);
    }
  }

  lemma FollowersOfMore(rules: Rules, stacks: seq<Stack>, p: PartialUtf8, fed: seq<Fed>, mid: seq<Stack>, f: Fed,
                        next: seq<Stack>, t: Stack)
    requires WellFormed(rules) && AreFedFollowers(rules, stacks, p, fed, mid)
    requires AreTokenFollowers(rules, mid, f.token, WordOf(f.piece, PartialAfter(fed, p)), next)
    ensures FedFollowerIn(rules, stacks, p, fed + [f], next, t)
  {
    var more := fed + [f];
    assert Front(more) == fed && Last(more) == f;
    assert TokenFollowerIn(rules, mid, f.token, LastWord(more, p), next, t);
    if t in next {
      var m :| m in mid && TokenFollows(rules, m, f.token, LastWord(more, p), t);
      assert FedFollowerIn(rules, stacks, p, fed, mid, m);
      var s :| s in stacks && FedFollows(rules, s, p, fed, m);
      assert FedVia(rules, s, p, more, m, t);
    }
    if s :| s in stacks && FedFollows(rules, s, p, more, t) {
      var m := LastStep(rules, s, p, more, t);
      assert FedFollowerIn(rules, stacks, p, fed, mid, m);
    }
  }

  /** Once no stack is left, none comes back. */
  lemma {:induction false} NoneComesBack(rules: Rules, stacks: seq<Stack>, p: PartialUtf8, fed: seq<Fed>,
                                         whole: seq<Fed>)
    requires WellFormed(rules) && fed <= whole && NoneSurvives(rules, stacks, p, fed)
    ensures NoneSurvives(rules, stacks, p, whole)
    decreases |whole|
  {
    if fed != whole {
      NoneComesBack(rules, stacks, p, fed, Front(whole));
      forall t
        ensures !FedFollowsOne(rules, stacks, p, whole, t)
      {
        if s :| s in stacks && FedFollows(rules, s, p, whole, t) {
          var m := LastStep(rules, s, p, whole, t);
          assert FedFollowsOne(rules, stacks, p, Front(whole), m);
        }
      }
    } else {
      assert fed == whole;
    }
  }

  /**
    The grammar has taken exactly `fed` since `before`. If its stacks stood for the words behind the
    history then (`tracked`), and no element asks for tokens, they do so now; for the empty word
    only once a text completes a code point, because an empty stack is not kept until then.
    */
  ghost predicate Ran(g: Grammar, before: Snapshot, tracked: bool, fed: seq<Fed>)
    reads g
  {
    && WellFormed(g.rules) && Took(g.rules, before, fed, g.State())
    && (TokenFree(g.rules) && tracked ==> g.Tracks(1))
    && (TokenFree(g.rules) && tracked && fed != [] && LastWord(fed, before.partial) != [] ==> g.Tracks(0))
  }

  lemma RanNothing(g: Grammar)
    requires g.Valid()
    ensures Ran(g, g.State(), g.Tracks(1), [])
  {
    TookNothing(g.rules, g.State());
  }

  /** Hands one more token to a grammar that has taken `fed` since `before`. */
  method TakeOne(g: Grammar, ghost before: Snapshot, ghost tracked: bool, fed: seq<Fed>, f: Fed) returns (ok: bool)
    requires g.Valid() && Ran(g, before, tracked, fed)
    modifies g
    ensures g.Valid() && (ok <==> g.stacks != []) && Ran(g, before, tracked, fed + [f])
  {
    ghost var mid := g.State();
    ok := AcceptToken(g, f.token, f.piece);
    TookMore(g.rules, before, fed, mid, f, g.State());
    assert Front(fed + [f]) == fed && Last(fed + [f]) == f;
  }
}
