/**
  A lazy grammar buffers tokens until one of its triggers is seen, and then replays what belongs to
  the constrained part of the text.
  */
module LazyTrigger {
  import opened Collections
  import opened GrammarElements
  import opened Language
  import opened Utf8
  import opened Automaton
  import opened Tokens
  import opened TokenRuns

  /** A buffered token and its place in the buffer. */
  datatype TokenPos = TokenPos(token: nat, start: nat, end: nat)

  /** What ended a call: it returned, an exception left it, or it aborted. */
  datatype Outcome = Returned | Threw | Aborted

  function EndOf(positions: seq<TokenPos>): nat {
    if positions == [] then 0 else positions[|positions| - 1].end
  }

  ghost predicate TileOk(vocab: Vocab, positions: seq<TokenPos>, buffer: seq<Byte>, i: nat)
    requires i < |positions|
  {
    && positions[i].start == EndOf(positions[..i])
    && positions[i].start <= positions[i].end <= |buffer|
    && buffer[positions[i].start..positions[i].end] == vocab.piece(positions[i].token)
  }

  /** The places follow each other without gap or overlap, fill the buffer, and hold the pieces of their tokens. */
  ghost predicate Tiles(vocab: Vocab, positions: seq<TokenPos>, buffer: seq<Byte>) {
    && EndOf(positions) == |buffer|
    && forall i :: 0 <= i < |positions| ==> TileOk(vocab, positions, buffer, i)
  }

  lemma SliceOfExtended<T>(a: seq<T>, b: seq<T>, lo: nat, hi: nat)
    requires lo <= hi <= |a|
    ensures (a + b)[lo..hi] == a[lo..hi]
  {
  }

  lemma TilesExtended(vocab: Vocab, positions: seq<TokenPos>, buffer: seq<Byte>, token: nat, piece: seq<Byte>)
    requires Tiles(vocab, positions, buffer) && piece == vocab.piece(token)
    ensures Tiles(vocab, positions + [TokenPos(token, |buffer|, |buffer| + |piece|)], buffer + piece)
  {
    var positions', buffer' := positions + [TokenPos(token, |buffer|, |buffer| + |piece|)], buffer + piece;
    forall i | 0 <= i < |positions'|
      ensures TileOk(vocab, positions', buffer', i)
    {
      if i < |positions| {
        assert TileOk(vocab, positions, buffer, i);
        assert positions'[..i] == positions[..i] && positions'[i] == positions[i];
        SliceOfExtended(buffer, piece, positions[i].start, positions[i].end);
      } else {
        assert positions'[..i] == positions;
        assert buffer'[|buffer|..|buffer| + |piece|] == piece;
      }
    }
  }

  /** The part of a buffered token from `from` on. */
  function PartFrom(buffer: seq<Byte>, p: TokenPos, from: nat): Fed
    requires p.start <= p.end <= |buffer| && from < p.end
  {
    Fed(p.token, buffer[(if p.start < from then from else p.start)..p.end])
  }

  function Texts(fed: seq<Fed>): seq<seq<Byte>> {
    seq(|fed|, i requires 0 <= i < |fed| => fed[i].piece)
  }

  /** The buffered tokens that end behind `from` are the last ones, and these parts of them are handed on in order. */
  ghost predicate Replays(positions: seq<TokenPos>, buffer: seq<Byte>, from: nat, fed: seq<Fed>) {
    exists j :: ReplaysFrom(positions, buffer, from, fed, j)
  }

  ghost predicate ReplaysFrom(positions: seq<TokenPos>, buffer: seq<Byte>, from: nat, fed: seq<Fed>, j: nat) {
    && |fed| + j == |positions|
    && (forall i :: 0 <= i < j ==> positions[i].end <= from)
    && forall i :: 0 <= i < |fed| ==> HandedOn(buffer, from, positions[j + i], fed[i])
  }

  ghost predicate HandedOn(buffer: seq<Byte>, from: nat, p: TokenPos, part: Fed) {
    && p.start <= p.end <= |buffer| && from < p.end && part.token == p.token
    && part.piece == if p.start < from then buffer[from..p.end] else buffer[p.start..p.end]
  }

  /** The first `n` buffered tokens are through: what they add to the text behind `from` has been handed on. */
  ghost predicate ReplayState(positions: seq<TokenPos>, buffer: seq<Byte>, from: nat, n: nat, fed: seq<Fed>, j: nat)
    requires n <= |positions|
  {
    var reached := EndOf(positions[..n]);
    && j <= n && reached <= |buffer|
    && ReplaysFrom(positions[..n], buffer, from, fed, j)
    && if reached <= from then fed == [] else Flatten(Texts(fed)) == buffer[from..reached]
  }

  lemma ReplaySkips(vocab: Vocab, positions: seq<TokenPos>, buffer: seq<Byte>, from: nat, n: nat, fed: seq<Fed>, j: nat)
    requires Tiles(vocab, positions, buffer) && n < |positions| && positions[n].end <= from <= |buffer|
    requires ReplayState(positions, buffer, from, n, fed, j)
    ensures fed == [] && ReplayState(positions, buffer, from, n + 1, fed, j + 1)
  {
    assert TileOk(vocab, positions, buffer, n);
    assert positions[..n + 1] == positions[..n] + [positions[n]];
  }

  lemma ReplaysExtended(ps: seq<TokenPos>, buffer: seq<Byte>, from: nat, fed: seq<Fed>, j: nat, p: TokenPos)
    requires ReplaysFrom(ps, buffer, from, fed, j) && p.start <= p.end <= |buffer| && from < p.end
    ensures ReplaysFrom(ps + [p], buffer, from, fed + [PartFrom(buffer, p, from)], j)
  {
    var ps', fed' := ps + [p], fed + [PartFrom(buffer, p, from)];
    forall i | 0 <= i < |fed'|
      ensures HandedOn(buffer, from, ps'[j + i], fed'[i])
    {
      if i < |fed| {
        assert HandedOn(buffer, from, ps[j + i], fed[i]);
        assert ps'[j + i] == ps[j + i] && fed'[i] == fed[i];
      } else {
        assert ps'[j + i] == p;
      }
    }
  }

  lemma ReplayTakes(vocab: Vocab, positions: seq<TokenPos>, buffer: seq<Byte>, from: nat, n: nat, fed: seq<Fed>, j: nat,
                    part: Fed)
    requires Tiles(vocab, positions, buffer) && n < |positions| && from < positions[n].end && from <= |buffer|
    requires ReplayState(positions, buffer, from, n, fed, j)
    requires positions[n].start <= positions[n].end <= |buffer| && part == PartFrom(buffer, positions[n], from)
    ensures ReplayState(positions, buffer, from, n + 1, fed + [part], j)
  {
    var p := positions[n];
    assert TileOk(vocab, positions, buffer, n);
    assert positions[..n + 1] == positions[..n] + [p];
    ReplaysExtended(positions[..n], buffer, from, fed, j, p);
    TextGrows(buffer, from, fed, p, part);
  }

  /** The text handed on grows by the part. */
  lemma TextGrows(buffer: seq<Byte>, from: nat, fed: seq<Fed>, p: TokenPos, part: Fed)
    requires p.start <= p.end <= |buffer| && from < p.end && part == PartFrom(buffer, p, from)
    requires if p.start <= from then fed == [] else Flatten(Texts(fed)) == buffer[from..p.start]
    ensures Flatten(Texts(fed + [part])) == buffer[from..p.end]
  {
    assert Texts(fed + [part]) == Texts(fed) + [part.piece];
    FlattenAppend(Texts(fed), part.piece);
    if p.start > from {
      assert buffer[from..p.start] + buffer[p.start..p.end] == buffer[from..p.end];
    }
  }

  predicate InBuffer(positions: seq<TokenPos>, buffer: seq<Byte>) {
    forall i :: 0 <= i < |positions| ==> positions[i].start <= positions[i].end <= |buffer|
  }

  lemma TilesInBuffer(vocab: Vocab, positions: seq<TokenPos>, buffer: seq<Byte>)
    requires Tiles(vocab, positions, buffer)
    ensures InBuffer(positions, buffer)
  {
    forall i | 0 <= i < |positions|
      ensures positions[i].start <= positions[i].end <= |buffer|
    {
      assert TileOk(vocab, positions, buffer, i);
    }
  }

  /** What the buffered tokens add to the text behind `from`, token by token. */
  function Parts(positions: seq<TokenPos>, buffer: seq<Byte>, from: nat): seq<Fed>
    requires InBuffer(positions, buffer)
    decreases |positions|
  {
    if positions == [] then []
    else
      var n := |positions| - 1;
      Parts(positions[..n], buffer, from)
      + if positions[n].end <= from then [] else [PartFrom(buffer, positions[n], from)]
  }

  lemma PartsNext(positions: seq<TokenPos>, buffer: seq<Byte>, from: nat, n: nat)
    requires InBuffer(positions, buffer) && n < |positions|
    ensures Parts(positions[..n + 1], buffer, from) == Parts(positions[..n], buffer, from)
      + if positions[n].end <= from then [] else [PartFrom(buffer, positions[n], from)]
  {
    var upTo := positions[..n + 1];
    assert upTo[..n] == positions[..n] && upTo[n] == positions[n];
  }

  lemma {:induction false} PartsGrow(positions: seq<TokenPos>, buffer: seq<Byte>, from: nat, n: nat)
    requires InBuffer(positions, buffer) && n <= |positions|
    ensures Parts(positions[..n], buffer, from) <= Parts(positions, buffer, from)
    decreases |positions| - n
  {
    if n < |positions| {
      PartsNext(positions, buffer, from, n);
      PartsGrow(positions, buffer, from, n + 1);
    } else {
      assert positions[..n] == positions;
    }
  }

  lemma {:induction false} PartsReplay(vocab: Vocab, positions: seq<TokenPos>, buffer: seq<Byte>, from: nat, n: nat)
    returns (j: nat)
    requires Tiles(vocab, positions, buffer) && InBuffer(positions, buffer) && from <= |buffer| && n <= |positions|
    ensures ReplayState(positions, buffer, from, n, Parts(positions[..n], buffer, from), j)
    decreases n
  {
    if n == 0 {
      j := 0;
    } else {
      var fed := Parts(positions[..n - 1], buffer, from);
      j := PartsReplay(vocab, positions, buffer, from, n - 1);
      PartsNext(positions, buffer, from, n - 1);
      if positions[n - 1].end <= from {
        ReplaySkips(vocab, positions, buffer, from, n - 1, fed, j);
        j := j + 1;
      } else {
        ReplayTakes(vocab, positions, buffer, from, n - 1, fed, j, PartFrom(buffer, positions[n - 1], from));
      }
    }
  }

  /** The parts make up exactly the rest of the buffer. */
  lemma PartsAreTheRest(vocab: Vocab, positions: seq<TokenPos>, buffer: seq<Byte>, from: nat)
    requires Tiles(vocab, positions, buffer) && InBuffer(positions, buffer) && from <= |buffer|
    ensures Flatten(Texts(Parts(positions, buffer, from))) == buffer[from..]
    ensures Replays(positions, buffer, from, Parts(positions, buffer, from))
  {
    var j := PartsReplay(vocab, positions, buffer, from, |positions|);
    assert positions[..|positions|] == positions;
    assert ReplaysFrom(positions, buffer, from, Parts(positions, buffer, from), j);
  }

  type Pattern = seq<Byte> -> Option<nat>

  ghost predicate InText(pattern: Pattern) {
    forall input :: pattern(input).Some? ==> pattern(input).value <= |input|
  }

  /** Patterns match inside the text they are given. */
  ghost predicate MatchesInText(patterns: seq<Pattern>) {
    forall k :: 0 <= k < |patterns| ==> InText(patterns[k])
  }

  class LazyGrammar {
    const g: Grammar
    const vocab: Vocab
    const triggerTokens: seq<nat>
    const patterns: seq<Pattern>
    var awaiting: bool
    var buffer: seq<Byte>
    var positions: seq<TokenPos>

    ghost predicate Valid()
      reads this, g
    {
      && g.Valid()
      && MatchesInText(patterns)
      && (awaiting ==> Tiles(vocab, positions, buffer))
    }

    constructor (g: Grammar, vocab: Vocab, lazy: bool, triggerTokens: seq<nat>, patterns: seq<Pattern>)
      requires g.Valid()
      requires MatchesInText(patterns)
      ensures Valid() && this.g == g && this.vocab == vocab && this.triggerTokens == triggerTokens &&
        this.patterns == patterns
      ensures awaiting == lazy && buffer == [] && positions == []
    {
      this.g := g;
      this.vocab := vocab;
      this.triggerTokens := triggerTokens;
      this.patterns := patterns;
      awaiting := lazy;
      buffer := [];
      positions := [];
    }

    ghost predicate NoneBefore(input: seq<Byte>, k: nat) {
      forall j :: 0 <= j < k && j < |patterns| ==> patterns[j](input).None?
    }

    /** The place where the first pattern with a match matches. */
    method FindTrigger(input: seq<Byte>) returns (start: Option<nat>)
      requires Valid()
      ensures start.Some? ==> start.value <= |input| && TriggeredAt(input, start.value)
      ensures start.Some? ==>
        exists k :: 0 <= k < |patterns| && patterns[k](input) == start
          && forall j :: 0 <= j < k ==> patterns[j](input).None?
      ensures start.None? ==> forall k :: 0 <= k < |patterns| ==> patterns[k](input).None?
    {
      for k := 0 to |patterns|
        invariant forall j :: 0 <= j < k ==> patterns[j](input).None?
      {
        if patterns[k](input).Some? {
          return patterns[k](input);
        }
      }
      return None;
    }

    /** Hands the tokens that reach behind `from` to the grammar, until an exception stops it. */
    method Replay(from: nat) returns (outcome: Outcome, fed: seq<Fed>)
      requires g.Valid() && Tiles(vocab, positions, buffer) && InBuffer(positions, buffer) && from <= |buffer|
      modifies g
      ensures g.Valid() && Ran(g, old(g.State()), old(g.Tracks(1)), fed)
      ensures !outcome.Aborted? && fed <= Parts(positions, buffer, from)
      ensures outcome.Returned? ==> fed == Parts(positions, buffer, from)
      ensures outcome.Threw? <==> fed != [] && g.stacks == []
    {
      fed := [];
      RanNothing(g);
      for n := 0 to |positions|
        invariant g.Valid() && Ran(g, old(g.State()), old(g.Tracks(1)), fed)
        invariant fed == Parts(positions[..n], buffer, from) && (fed != [] ==> g.stacks != [])
      {
        PartsGrow(positions, buffer, from, n + 1);
        var ok;
        ok, fed := ReplayOne(from, n, old(g.State()), old(g.Tracks(1)), fed);
        if !ok {
          return Threw, fed;
        }
      }
      assert positions[..|positions|] == positions;
      outcome := Returned;
    }

    /** One of the buffered tokens. */
    method ReplayOne(from: nat, n: nat, ghost before: Snapshot, ghost tracked: bool, fed: seq<Fed>)
      returns (ok: bool, more: seq<Fed>)
      requires g.Valid() && InBuffer(positions, buffer) && n < |positions|
      requires Ran(g, before, tracked, fed) && fed == Parts(positions[..n], buffer, from) &&
        (fed != [] ==> g.stacks != [])
      modifies g
      ensures g.Valid() && Ran(g, before, tracked, more) && more == Parts(positions[..n + 1], buffer, from)
      ensures if ok then more != [] ==> g.stacks != [] else more != [] && g.stacks == []
    {
      var p := positions[n];
      PartsNext(positions, buffer, from, n);
      if p.end <= from {
        return true, fed;
      }
      var pieceStart := if p.start < from then from else p.start;
      var part := Fed(p.token, buffer[pieceStart..p.end]);
      ok := TakeOne(g, before, tracked, fed, part);
      more := fed + [part];
    }

    /** Replaying fails exactly if the parts, handed over one after the other, leave no stack. */
    lemma ThrewMeans(before: Snapshot, from: nat, outcome: Outcome, fed: seq<Fed>)
      requires g.Valid() && InBuffer(positions, buffer) && Took(g.rules, before, fed, g.State())
      requires fed <= Parts(positions, buffer, from) && (outcome.Returned? ==> fed == Parts(positions, buffer, from))
      requires !outcome.Aborted? && (outcome.Threw? <==> fed != [] && g.stacks == [])
      ensures outcome.Threw? <==>
        Parts(positions, buffer, from) != [] && NoneSurvives(g.rules, before.stacks, before.partial,
          Parts(positions, buffer, from))
    {
      NoneSurvivesIs(g.rules, before.stacks, before.partial, fed, g.stacks);
      if outcome.Threw? {
        NoneComesBack(g.rules, before.stacks, before.partial, fed, Parts(positions, buffer, from));
      }
    }

    /** The first of the patterns that match the text matches at `start`. */
    ghost predicate TriggeredAt(text: seq<Byte>, start: nat) {
      exists k :: 0 <= k < |patterns| && patterns[k](text) == Some(start) && NoneBefore(text, k)
    }

    /** The tokens of a text, of which the grammar is handed what lies behind the trigger. */
    ghost predicate ReplayedFrom(text: seq<Byte>, held: seq<TokenPos>, start: nat, outcome: Outcome, fed: seq<Fed>,
                                 stacks: seq<Stack>, partial: PartialUtf8)
      requires WellFormed(g.rules)
    {
      && TriggeredAt(text, start) && start <= |text| && InBuffer(held, text)
      && var parts := Parts(held, text, start);
      && Flatten(Texts(parts)) == text[start..] && Replays(held, text, start, parts)
      && fed <= parts && (outcome.Returned? ==> fed == parts)
      && (outcome.Threw? <==> parts != [] && NoneSurvives(g.rules, stacks, partial, parts))
    }

    /** A pattern matches the buffer at `start`: what lies behind is replayed. */
    method Trigger(start: nat) returns (outcome: Outcome, fed: seq<Fed>)
      requires g.Valid() && Tiles(vocab, positions, buffer) && TriggeredAt(buffer, start) && start <= |buffer|
      modifies g
      ensures g.Valid() && Ran(g, old(g.State()), old(g.Tracks(1)), fed)
      ensures !outcome.Aborted? && (outcome.Threw? <==> fed != [] && g.stacks == [])
      ensures ReplayedFrom(buffer, positions, start, outcome, fed, old(g.stacks), old(g.partial))
    {
      TilesInBuffer(vocab, positions, buffer);
      PartsAreTheRest(vocab, positions, buffer, start);
      outcome, fed := Replay(start);
      ThrewMeans(old(g.State()), start, outcome, fed);
    }

    /** Puts a token at the end of the buffer. */
    method Keep(token: nat)
      requires Tiles(vocab, positions, buffer)
      modifies this`buffer, this`positions
      ensures Tiles(vocab, positions, buffer) && buffer == old(buffer) + vocab.piece(token)
      ensures positions == old(positions) + [TokenPos(token, |old(buffer)|, |buffer|)]
    {
      var piece := vocab.piece(token);
      TilesExtended(vocab, positions, buffer, token, piece);
      positions := positions + [TokenPos(token, |buffer|, |buffer| + |piece|)];
      buffer := buffer + piece;
    }

    /** Holds a token back; when that completes a trigger, everything from the trigger on is replayed. */
    method HoldBack(token: nat) returns (outcome: Outcome, fed: seq<Fed>)
      requires Valid() && awaiting
      modifies this, g
      ensures Valid() && !outcome.Aborted?
      ensures var text := old(buffer) + vocab.piece(token);
        var held := old(positions) + [TokenPos(token, |old(buffer)|, |text|)];
        && (awaiting <==> forall start :: !TriggeredAt(text, start))
        && (if !awaiting && outcome.Returned? then buffer == [] && positions == []
            else buffer == text && positions == held)
        && (!awaiting ==> exists start :: ReplayedFrom(text, held, start, outcome, fed, old(g.stacks), old(g.partial)))
      ensures awaiting ==> outcome.Returned? && fed == [] && g.State() == old(g.State())
      ensures Ran(g, old(g.State()), old(g.Tracks(1)), fed)
      ensures outcome.Threw? <==> fed != [] && g.stacks == []
    {
      Keep(token);
      var start := FindTrigger(buffer);
      if start.None? {
        RanNothing(g);
        return Returned, [];
      }
      awaiting := false;
      outcome, fed := Trigger(start.value);
      if outcome.Returned? {
        buffer := [];
        positions := [];
      }
    }

    /** Hands a whole token to the grammar. */
    method TakeToken(token: nat) returns (outcome: Outcome, fed: seq<Fed>)
      requires g.Valid()
      modifies g
      ensures g.Valid() && fed == [Fed(token, vocab.piece(token))]
      ensures Ran(g, old(g.State()), old(g.Tracks(1)), fed)
      ensures !outcome.Aborted? && (outcome.Threw? <==> g.stacks == [])
    {
      RanNothing(g);
      var f := Fed(token, vocab.piece(token));
      var ok := TakeOne(g, g.State(), g.Tracks(1), [], f);
      fed := [f];
      assert [] + [f] == fed;
      outcome := if ok then Returned else Threw;
    }

    /**
      Takes a token, or keeps it back while the grammar waits for its trigger. What the grammar is
      handed is `fed`, and its new state is exactly what that makes of the old one.
      */
    method Accept(token: nat) returns (outcome: Outcome, fed: seq<Fed>)
      requires Valid()
      modifies this, g
      ensures Valid()
      ensures Ran(g, old(g.State()), old(g.Tracks(1)), fed)
      ensures outcome.Threw? <==> fed != [] && g.stacks == []
      ensures outcome.Aborted? <==> !old(awaiting) && vocab.isEog(token) && [] !in old(g.stacks)
      ensures !old(awaiting) ==> !awaiting && fed == if vocab.isEog(token) then [] else [Fed(token, vocab.piece(token))]
      ensures fed == [] && (old(awaiting) ==> awaiting) ==> g.State() == old(g.State())
      ensures old(awaiting) && token in triggerTokens ==>
        !awaiting && buffer == [] && fed == [Fed(token, vocab.piece(token))]
      ensures old(awaiting) && token !in triggerTokens ==>
        var text := old(buffer) + vocab.piece(token);
        var held := old(positions) + [TokenPos(token, |old(buffer)|, |text|)];
        && (awaiting <==> forall start :: !TriggeredAt(text, start))
        && (awaiting ==> fed == [] && buffer == text && positions == held)
        && (!awaiting ==> exists start :: ReplayedFrom(text, held, start, outcome, fed, old(g.stacks), old(g.partial)))
    {
      if awaiting {
        if token in triggerTokens {
          awaiting := false;
          buffer := [];
          outcome, fed := TakeToken(token);
          return;
        }
        outcome, fed := HoldBack(token);
        return;
      }
      if vocab.isEog(token) {
        RanNothing(g);
        var allowed := AllowsEnd(g.stacks);
        return if allowed then Returned else Aborted, [];
      }
      outcome, fed := TakeToken(token);
    }
  }
}
