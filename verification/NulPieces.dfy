/**
  Pieces that decode to a NUL code point, as the overlong bytes C0 80 do: what the filter makes of
  them, and exactly when masking and taking a token agree.
  */
module NulPieces {
  import opened GrammarElements
  import opened Language
  import opened StackExpansion
  import opened CharStep
  import opened Utf8
  import opened PartialChar
  import opened CandidateFilter
  import opened Tokens

  /** The code points before the first NUL. */
  function BeforeNul(word: Word): (w: Word)
    ensures w <= word && 0 !in w && (0 in word ==> |w| < |word| && word[|w|] == 0) && (0 !in word ==> w == word)
  {
    if word == [] || word[0] == 0 then [] else [word[0]] + BeforeNul(word[1..])
  }

  lemma CandidateEnd(piece: seq<Byte>, partial: PartialUtf8, id: nat)
    requires Bounded(partial)
    ensures var c, w := CandidateOf(0, piece, partial, id), BeforeNul(WordOf(piece, partial));
      c.Valid() && c.End() == |w| && c.codePoints[0..c.End()] == w
  {
    var c, word := CandidateOf(0, piece, partial, id), WordOf(piece, partial);
    var w := BeforeNul(word);
    CandidateIsValid(0, piece, partial, id);
    DecodeEndsInZero(piece, partial);
    assert c.codePoints == word + [0];
    forall i | 0 <= i < |w|
      ensures c.codePoints[i] == w[i] && w[i] != 0
    {
      assert w[i] == word[i] && w[i] in w;
    }
  }

  ghost predicate SomePasses(rules: Rules, stacks: seq<Stack>, word: Word, partial: PartialUtf8)
    requires WellFormed(rules) && Bounded(partial)
  {
    exists s :: s in stacks && Passes(rules, s, word, partial)
  }

  /**
    What the filter decides: whether the code points before the first NUL lead to a stack that what
    is cut off at the end of the piece fits.
    */
  lemma FilterStopsAtNul(rules: Rules, stacks: seq<Stack>, partial: PartialUtf8, vocab: Vocab, id: nat)
    requires WellFormed(rules) && TokenFree(rules) && AllSettled(rules, stacks) && Bounded(partial) &&
      Filtered(vocab, id)
    ensures Bounded(Decode(vocab.piece(id), partial).partial)
    ensures Masked(rules, stacks, partial, vocab, id) <==>
      !SomePasses(rules, stacks, BeforeNul(WordOf(vocab.piece(id), partial)), Decode(vocab.piece(id), partial).partial)
  {
    var piece := vocab.piece(id);
    var c, w := CandidateOf(0, piece, partial, id), BeforeNul(WordOf(piece, partial));
    DecodeBounded(piece, partial);
    CandidateEnd(piece, partial, id);
    forall s | s in stacks
      ensures Rejected(rules, s, c, 0) <==> !Passes(rules, s, w, c.partial)
    {
      RejectedMeans(rules, s, c, 0);
    }
  }

  /** For this grammar and these stacks masking the token and being able to take it exclude each other. */
  ghost predicate Agrees(rules: Rules, stacks: seq<Stack>, partial: PartialUtf8, vocab: Vocab, id: nat)
    requires Bounded(partial)
  {
    WellFormed(rules) && TokenFree(rules) && AllSettled(rules, stacks) ==>
      (Masked(rules, stacks, partial, vocab, id) <==> !LeavesFit(rules, stacks, partial, vocab.piece(id), id))
  }

  /** What can never be completed fits nowhere, so both refuse. */
  lemma HopelessAgrees(rules: Rules, stacks: seq<Stack>, partial: PartialUtf8, vocab: Vocab, id: nat)
    requires Bounded(partial) && Filtered(vocab, id)
    requires var p := Decode(vocab.piece(id), partial).partial; p.nRemain != 0 && Hopeless(p)
    ensures Agrees(rules, stacks, partial, vocab, id)
  {
    if WellFormed(rules) && TokenFree(rules) && AllSettled(rules, stacks) {
      FilterStopsAtNul(rules, stacks, partial, vocab, id);
      var p := Decode(vocab.piece(id), partial).partial;
      assert forall t :: !PartialFits(rules, t, p);
    }
  }

  // ---------------------------------------------------------------------------------------
  // A grammar on which they differ
  // ---------------------------------------------------------------------------------------

  /** root ::= the characters of the word, then [^\0] */
  function Guarded(word: Word): Rules {
    [seq(|word|, i requires 0 <= i < |word| => Element(CHAR, word[i])) + [Element(CHAR_NOT, 0), Element(END, 0)]]
  }

  lemma GuardedIsWellFormed(word: Word)
    ensures WellFormed(Guarded(word)) && TokenFree(Guarded(word))
    ensures forall i :: 0 <= i <= |word| ==> SymbolEnd(Guarded(word)[0], i) == i + 1
  {
    var rule := Guarded(word)[0];
    assert forall i :: 0 <= i < |rule| ==> FollowsWell(rule, i);
    assert WellShaped(rule);
  }

  lemma GuardedSettled(word: Word, i: nat)
    requires i <= |word|
    ensures AllSettled(Guarded(word), [[Frame(0, i)]])
  {
  }

  /** Each character of the word leads to the next position, and nowhere else. */
  lemma GuardedStep(word: Word, i: nat, t: Stack)
    requires i < |word| && WellFormed(Guarded(word))
    ensures Follows(Guarded(word), [Frame(0, i)], word[i], t) <==> t == [Frame(0, i + 1)]
  {
    var rules, s, next := Guarded(word), [Frame(0, i)], [Frame(0, i + 1)];
    GuardedIsWellFormed(word);
    assert Pop(s) == [] && AfterTop(rules, s) == next;
    assert ItemCovers(rules[0], i, word[i]);
    assert CharAccepts(rules, s, word[i]);
    ReachesSelf(rules, next);
    if Reaches(rules, next, t) {
      ReachesInvariant(rules, next, t, iset{next});
    }
  }

  lemma {:induction false} GuardedPrefix(word: Word, i: nat, t: Stack)
    requires i <= |word| && WellFormed(Guarded(word))
    ensures FollowsWord(Guarded(word), [Frame(0, i)], word[i..], t) <==> t == [Frame(0, |word|)]
    decreases |word| - i
  {
    if i < |word| {
      var next := [Frame(0, i + 1)];
      assert word[i..][1..] == word[i + 1..];
      GuardedStep(word, i, next);
      GuardedPrefix(word, i + 1, t);
      if FollowsWord(Guarded(word), [Frame(0, i)], word[i..], t) {
        var m := FirstFollower(Guarded(word), [Frame(0, i)], word[i..], t);
        GuardedStep(word, i, m);
      }
      if t == [Frame(0, |word|)] {
        FollowsFirst(Guarded(word), [Frame(0, i)], word[i..], next, t);
      }
    }
  }

  /** The class at the end refuses NUL. */
  lemma GuardRefuses(word: Word, more: Word, t: Stack)
    requires WellFormed(Guarded(word)) && more != [] && more[0] == 0
    ensures !FollowsWord(Guarded(word), [Frame(0, 0)], word + more, t)
  {
    var rules, s := Guarded(word), [Frame(0, 0)];
    if FollowsWord(rules, s, word + more, t) {
      assert word + more == word + [0] + more[1..];
      var m := FollowsWordPrefix(rules, s, word + [0], more[1..], t);
      var x := FollowsWordSplit(rules, s, word, 0, m);
      assert word[0..] == word;
      GuardedPrefix(word, 0, x);
      assert ItemCovers(rules[0], |word|, 0);
    }
  }

  /** It lets through what is cut off, because no character that needs more than one byte is NUL. */
  lemma GuardFits(word: Word, p: PartialUtf8)
    requires WellFormed(Guarded(word)) && Bounded(p) && (p.nRemain != 0 ==> !Hopeless(p))
    ensures PartialFits(Guarded(word), [Frame(0, |word|)], p)
  {
    if p.nRemain != 0 {
      var rule := Guarded(word)[0];
      GuardedIsWellFormed(word);
      assert Low(p) > 0;
      assert !ClassMeets(rule, |word|, Low(p), High(p));
    }
  }

  /** The filter lets the word before the NUL pass. */
  lemma GuardedPasses(word: Word, p: PartialUtf8)
    requires WellFormed(Guarded(word)) && Bounded(p) && (p.nRemain != 0 ==> !Hopeless(p))
    ensures SomePasses(Guarded(word), [[Frame(0, 0)]], word, p)
  {
    var s, t := [Frame(0, 0)], [Frame(0, |word|)];
    assert word[0..] == word;
    GuardedPrefix(word, 0, t);
    GuardFits(word, p);
    assert PassesTo(Guarded(word), s, word, p, t) && s in [s];
  }

  /** Taking the token leaves no stack. */
  lemma GuardedLeavesNone(word: Word, id: nat, t: Stack)
    requires 0 in word && WellFormed(Guarded(BeforeNul(word)))
    ensures !TokenFollowsOne(Guarded(BeforeNul(word)), [[Frame(0, 0)]], id, word, t)
  {
    var w := BeforeNul(word);
    GuardedIsWellFormed(w);
    assert word == w + word[|w|..];
    GuardRefuses(w, word[|w|..], t);
  }

  lemma GuardedDiffers(partial: PartialUtf8, vocab: Vocab, id: nat)
    requires Bounded(partial) && Filtered(vocab, id) && 0 in WordOf(vocab.piece(id), partial)
    requires var p := Decode(vocab.piece(id), partial).partial; p.nRemain != 0 ==> !Hopeless(p)
    ensures var w := BeforeNul(WordOf(vocab.piece(id), partial));
      !Agrees(Guarded(w), [[Frame(0, 0)]], partial, vocab, id)
  {
    var word, p := WordOf(vocab.piece(id), partial), Decode(vocab.piece(id), partial).partial;
    var w, stacks := BeforeNul(word), [[Frame(0, 0)]];
    GuardedIsWellFormed(w);
    GuardedSettled(w, 0);
    FilterStopsAtNul(Guarded(w), stacks, partial, vocab, id);
    GuardedPasses(w, p);
    forall t
      ensures !TokenFollowsOne(Guarded(w), stacks, id, word, t)
    {
      GuardedLeavesNone(word, id, t);
    }
  }

  /**
    Masking and taking agree on every grammar without token elements if and only if the piece gives
    no NUL code point, or ends in something that no byte can complete.
    */
  lemma AgreeIff(partial: PartialUtf8, vocab: Vocab, id: nat)
    requires Bounded(partial) && Filtered(vocab, id)
    ensures (forall rules, stacks :: Agrees(rules, stacks, partial, vocab, id)) <==>
      var p := Decode(vocab.piece(id), partial).partial;
      0 !in WordOf(vocab.piece(id), partial) || (p.nRemain != 0 && Hopeless(p))
  {
    var p := Decode(vocab.piece(id), partial).partial;
    if 0 !in WordOf(vocab.piece(id), partial) || (p.nRemain != 0 && Hopeless(p)) {
      forall rules, stacks
        ensures Agrees(rules, stacks, partial, vocab, id)
      {
        if p.nRemain != 0 && Hopeless(p) {
          HopelessAgrees(rules, stacks, partial, vocab, id);
        } else if WellFormed(rules) && TokenFree(rules) && AllSettled(rules, stacks) {
          MaskedIffNotAcceptable(rules, stacks, partial, vocab, id);
        }
      }
    } else {
      GuardedDiffers(partial, vocab, id);
    }
  }

  // ---------------------------------------------------------------------------------------
  // The overlong NUL
  // ---------------------------------------------------------------------------------------

  /** root ::= "a" */
  function SingleLetter(): Rules {
    [[Element(CHAR, 97), Element(END, 0)]]
  }

  /**
    With a NUL code point the two can differ: the overlong bytes C0 80 end the token for the filter,
    which lets it pass, but leave no stack when the token is taken.
    */
  lemma OverlongNulPassesFilter(vocab: Vocab, id: nat)
    requires vocab.piece(id) == [0xC0, 0x80] && !vocab.isEog(id)
    ensures var rules, stacks, p := SingleLetter(), [[Frame(0, 0)]], PartialUtf8(0, 0);
      WellFormed(rules) && TokenFree(rules) && AllSettled(rules, stacks)
      && !Masked(rules, stacks, p, vocab, id) && !LeavesStack(rules, stacks, p, vocab.piece(id), id)
  {
    var rules, s, p := SingleLetter(), [Frame(0, 0)], PartialUtf8(0, 0);
    SingleLetterIsWellFormed();
    OverlongNulDecodes();
    assert WordOf(vocab.piece(id), p) == [0];
    FilterStopsAtNul(rules, [s], p, vocab, id);
    assert PassesTo(rules, s, [], p, s) && s in [s];
    NothingFollows(rules, s, id);
  }

  lemma SingleLetterIsWellFormed()
    ensures var rules, s := SingleLetter(), [Frame(0, 0)];
      WellFormed(rules) && TokenFree(rules) && AllSettled(rules, [s]) && !CharAccepts(rules, s, 0)
  {
    var rule := SingleLetter()[0];
    assert forall i :: 0 <= i < |rule| ==> FollowsWell(rule, i);
    assert SymbolEnd(rule, 0) == 1;
  }

  lemma NothingFollows(rules: Rules, s: Stack, id: nat)
    requires WellFormed(rules) && TokenFree(rules) && s != [] && !CharAccepts(rules, s, 0)
    ensures forall t :: !TokenFollowsOne(rules, [s], id, [0], t)
  {
  }

  lemma OverlongNulDecodes()
    ensures Decode([0xC0, 0x80], PartialUtf8(0, 0)) == Decoded([0, 0], PartialUtf8(0, 0))
  {
    var piece: seq<Byte>, none: seq<nat> := [0xC0, 0x80], [];
    assert piece[1..] == [0x80] && piece[1..][1..] == [];
    assert Collect(piece[1..], 0, 1) == Tail([], 0, 0);
    assert none + [0] == [0] && DecodeChars([], [0], 0, 0) == Decoded([0] + [0], PartialUtf8(0, 0));
    assert DecodeChars(piece, none, 0, 0) == DecodeChars([], none + [0], 0, 0);
  }
}
