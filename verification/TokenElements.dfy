/**
  Grammars in which rules also name whole tokens: what the filter makes of a token in front of which
  characters were matched, and exactly when masking and taking a token agree.
  */
module TokenElements {
  import opened GrammarElements
  import opened Language
  import opened StackExpansion
  import opened RuleUse
  import opened LeftReferences
  import opened Progress
  import opened CharStep
  import opened Utf8
  import opened PartialChar
  import opened CandidateFilter
  import opened Tokens
  import opened NulPieces

  ghost predicate WaitsForToken(rules: Rules, t: Stack, id: nat) {
    && t != [] && ValidFrame(rules, Top(t))
    && IsToken(ElementAt(rules, Top(t))) && TokenMatches(ElementAt(rules, Top(t)), id)
  }

  /** The filter lets the token pass here: at its end if the rest fits, before its end for a token element. */
  ghost predicate LetsPass(rules: Rules, t: Stack, rest: Word, partial: PartialUtf8, id: nat)
    requires Bounded(partial)
  {
    if rest == [] then PartialFits(rules, t, partial) else WaitsForToken(rules, t, id)
  }

  /** The first `i` code points lead to `t`, which lets the token pass. */
  ghost predicate PassesAt(rules: Rules, s: Stack, word: Word, partial: PartialUtf8, id: nat, i: nat, t: Stack)
    requires WellFormed(rules) && Bounded(partial)
  {
    i <= |word| && FollowsWord(rules, s, word[..i], t) && LetsPass(rules, t, word[i..], partial, id)
  }

  ghost predicate PassesSome(rules: Rules, s: Stack, word: Word, partial: PartialUtf8, id: nat)
    requires WellFormed(rules) && Bounded(partial)
  {
    exists i: nat, t :: PassesAt(rules, s, word, partial, id, i, t)
  }

  /** The first code point leads to `m`, which lets the token pass later. */
  ghost predicate PassesBehind(rules: Rules, s: Stack, word: Word, partial: PartialUtf8, id: nat, m: Stack)
    requires WellFormed(rules) && Bounded(partial) && word != []
  {
    Follows(rules, s, word[0], m) && PassesSome(rules, m, word[1..], partial, id)
  }

  /** A way on behind the first code point. */
  lemma PassesLater(rules: Rules, s: Stack, word: Word, partial: PartialUtf8, id: nat, i: nat, t: Stack)
    returns (m: Stack)
    requires WellFormed(rules) && Bounded(partial) && i > 0 && PassesAt(rules, s, word, partial, id, i, t)
    ensures word != [] && PassesBehind(rules, s, word, partial, id, m)
  {
    m := FirstFollower(rules, s, word[..i], t);
    assert word[..i][1..] == word[1..][..i - 1] && word[i..] == word[1..][i - 1..];
    assert PassesAt(rules, m, word[1..], partial, id, i - 1, t);
  }

  lemma PassesBefore(rules: Rules, s: Stack, word: Word, partial: PartialUtf8, id: nat, m: Stack)
    requires WellFormed(rules) && Bounded(partial) && word != [] && PassesBehind(rules, s, word, partial, id, m)
    ensures PassesSome(rules, s, word, partial, id)
  {
    var i: nat, t :| PassesAt(rules, m, word[1..], partial, id, i, t);
    assert word[..i + 1][1..] == word[1..][..i] && word[i + 1..] == word[1..][i..];
    FollowsFirst(rules, s, word[..i + 1], m, t);
    assert PassesAt(rules, s, word, partial, id, i + 1, t);
  }

  lemma PassesHere(rules: Rules, s: Stack, word: Word, partial: PartialUtf8, id: nat)
    requires WellFormed(rules) && Bounded(partial)
    ensures LetsPass(rules, s, word, partial, id) ==> PassesAt(rules, s, word, partial, id, 0, s)
    ensures forall t :: PassesAt(rules, s, word, partial, id, 0, t) ==> LetsPass(rules, s, word, partial, id)
  {
  }

  lemma PassesHereOrBehind(rules: Rules, s: Stack, word: Word, partial: PartialUtf8, id: nat)
    requires WellFormed(rules) && Bounded(partial) && word != []
    ensures PassesSome(rules, s, word, partial, id) <==>
      LetsPass(rules, s, word, partial, id) || exists m :: PassesBehind(rules, s, word, partial, id, m)
  {
    PassesHere(rules, s, word, partial, id);
    if PassesSome(rules, s, word, partial, id) {
      var i: nat, t :| PassesAt(rules, s, word, partial, id, i, t);
      if i > 0 {
        var m := PassesLater(rules, s, word, partial, id, i, t);
      }
    }
    if m :| PassesBehind(rules, s, word, partial, id, m) {
      PassesBefore(rules, s, word, partial, id, m);
    }
  }

  /** At the end of the token only what is cut off counts. */
  lemma RejectedWhenRead(rules: Rules, s: Stack, c: Candidate)
    requires WellFormed(rules) && c.Valid() && ValidStack(rules, s) && Settled(rules, s)
    ensures Rejected(rules, s, c, c.End()) <==> !PassesSome(rules, s, [], c.partial, c.id)
  {
    var none: Word := [];
    assert none[..0] == [] && none[0..] == [];
    if PassesSome(rules, s, none, c.partial, c.id) {
      var i: nat, t :| PassesAt(rules, s, none, c.partial, c.id, i, t);
      assert t == s;
    }
    if PartialFits(rules, s, c.partial) {
      assert PassesAt(rules, s, none, c.partial, c.id, 0, s);
    }
  }

  /** Before the end a stack rejects here, or every way on does. */
  lemma RejectedInside(rules: Rules, s: Stack, c: Candidate, depth: nat)
    requires WellFormed(rules) && c.Valid() && depth < c.End() && ValidStack(rules, s) && Settled(rules, s)
    ensures Rejected(rules, s, c, depth) <==>
      !WaitsForToken(rules, s, c.id) && forall m :: FollowerRejected(rules, s, c, depth, m)
  {
    if Continues(rules, s, c, depth) {
      forall m
        ensures FollowerRejected(rules, s, c, depth, m) <==> RejectedVia(rules, s, c, depth, m)
      {
      }
    }
  }

  /** The filter rejects exactly when no way through the code points comes to where the token may pass. */
  lemma {:induction false} RejectedWithTokens(rules: Rules, s: Stack, c: Candidate, depth: nat)
    requires WellFormed(rules) && c.Valid() && depth <= c.End() && ValidStack(rules, s) && Settled(rules, s)
    ensures Rejected(rules, s, c, depth) <==> !PassesSome(rules, s, c.codePoints[depth..c.End()], c.partial, c.id)
    decreases c.End() - depth
  {
    var word := c.codePoints[depth..c.End()];
    if depth == c.End() {
      RejectedWhenRead(rules, s, c);
    } else {
      RejectedInside(rules, s, c, depth);
      PassesHereOrBehind(rules, s, word, c.partial, c.id);
      forall m
        ensures FollowerRejected(rules, s, c, depth, m) <==> !PassesBehind(rules, s, word, c.partial, c.id, m)
      {
        if Follows(rules, s, word[0], m) {
          FollowersSettled(rules, [s], word[0], m);
          assert word[1..] == c.codePoints[depth + 1..c.End()];
          RejectedWithTokens(rules, m, c, depth + 1);
        }
      }
    }
  }

  ghost predicate OnePasses(rules: Rules, stacks: seq<Stack>, word: Word, partial: PartialUtf8, id: nat)
    requires WellFormed(rules) && Bounded(partial)
  {
    exists s :: s in stacks && PassesSome(rules, s, word, partial, id)
  }

  /**
    What the filter decides on any grammar: a token passes if some of its code points, none of which is
    NUL, lead to a stack that waits for it, or if all up to the first NUL lead to one that its end fits.
    */
  lemma FilterDecides(rules: Rules, stacks: seq<Stack>, partial: PartialUtf8, vocab: Vocab, id: nat)
    requires WellFormed(rules) && AllSettled(rules, stacks) && Bounded(partial) && Filtered(vocab, id)
    ensures Bounded(Decode(vocab.piece(id), partial).partial)
    ensures Masked(rules, stacks, partial, vocab, id) <==>
      !OnePasses(rules, stacks, BeforeNul(WordOf(vocab.piece(id), partial)), Decode(vocab.piece(id), partial).partial,
        id)
  {
    var piece := vocab.piece(id);
    var c, w := CandidateOf(0, piece, partial, id), BeforeNul(WordOf(piece, partial));
    DecodeBounded(piece, partial);
    CandidateEnd(piece, partial, id);
    forall s | s in stacks
      ensures Rejected(rules, s, c, 0) <==> !PassesSome(rules, s, w, c.partial, id)
    {
      RejectedWithTokens(rules, s, c, 0);
    }
  }

  // ---------------------------------------------------------------------------------------
  // Which tokens a token element takes
  // ---------------------------------------------------------------------------------------

  /** The stack waits for token `id`, or for any token but this one. */
  ghost predicate WaitsFor(rules: Rules, s: Stack, id: nat, inverse: bool) {
    && ValidStack(rules, s) && s != []
    && ElementAt(rules, Top(s)) == Element(if inverse then TOKEN_NOT else TOKEN, id)
  }

  /** A stack that waits for a token goes on exactly with this one, and one that excludes a token with all others. */
  lemma TokenGoesOn(rules: Rules, s: Stack, id: nat, inverse: bool, token: nat, word: Word)
    requires WellFormed(rules) && Lively(rules, s) && WaitsFor(rules, s, id, inverse)
    ensures (exists t :: TokenFollows(rules, s, token, word, t)) <==> if inverse then token != id else token == id
  {
    AfterTopIsValid(rules, s);
    AfterTopWithin(rules, s, StartingRules(rules));
    var t := LivelyProgress(rules, AfterTop(rules, s));
    assert (if inverse then token != id else token == id) ==> TokenFollows(rules, s, token, word, t);
  }

  /** The filter masks exactly the others, if the piece gives a code point in front of any NUL. */
  lemma TokenIsMasked(rules: Rules, s: Stack, id: nat, inverse: bool, partial: PartialUtf8, vocab: Vocab, token: nat)
    requires WellFormed(rules) && WaitsFor(rules, s, id, inverse) && Bounded(partial) && Filtered(vocab, token)
    requires BeforeNul(WordOf(vocab.piece(token), partial)) != []
    ensures Masked(rules, [s], partial, vocab, token) <==> if inverse then token == id else token != id
  {
    var w, p := BeforeNul(WordOf(vocab.piece(token), partial)), Decode(vocab.piece(token), partial).partial;
    FilterDecides(rules, [s], partial, vocab, token);
    PassesHereOrBehind(rules, s, w, p, token);
    assert forall m :: !Follows(rules, s, w[0], m);
    assert WaitsForToken(rules, s, token) <==> if inverse then token != id else token == id;
    assert s in [s];
  }

  // ---------------------------------------------------------------------------------------
  // Where masking and taking agree
  // ---------------------------------------------------------------------------------------

  /** Masking the token and being able to take it exclude each other, on a grammar that can go on everywhere. */
  ghost predicate AgreesThroughout(rules: Rules, stacks: seq<Stack>, partial: PartialUtf8, vocab: Vocab, id: nat)
    requires Bounded(partial)
  {
    WellFormed(rules) && AllSettled(rules, stacks) && AllLively(rules, stacks) ==>
      (Masked(rules, stacks, partial, vocab, id) <==> !LeavesFit(rules, stacks, partial, vocab.piece(id), id))
  }

  /** The token is one whole character other than NUL, or nothing that any byte can complete. */
  predicate OneOrHopeless(word: Word, partial: PartialUtf8) {
    if partial.nRemain == 0 then |word| == 1 && word[0] != 0 else Hopeless(partial) && BeforeNul(word) == []
  }

  /** One code point leads on exactly if the stack lets the token pass. */
  lemma OneStep(rules: Rules, s: Stack, c: CodePoint, partial: PartialUtf8, id: nat)
    requires WellFormed(rules) && ValidStack(rules, s) && Settled(rules, s) && Lively(rules, s)
    requires partial.nRemain == 0 && Bounded(partial)
    ensures PassesSome(rules, s, [c], partial, id) <==> exists t :: TokenFollows(rules, s, id, [c], t)
  {
    PassesHereOrBehind(rules, s, [c], partial, id);
    if s != [] && IsToken(ElementAt(rules, Top(s))) {
      AfterTopIsValid(rules, s);
      AfterTopWithin(rules, s, StartingRules(rules));
      var t := LivelyProgress(rules, AfterTop(rules, s));
      assert TokenMatches(ElementAt(rules, Top(s)), id) ==> TokenFollows(rules, s, id, [c], t);
      assert forall m :: !Follows(rules, s, c, m);
    } else {
      assert !WaitsForToken(rules, s, id);
      forall m
        ensures PassesBehind(rules, s, [c], partial, id, m) <==> TokenFollows(rules, s, id, [c], m)
      {
        StepIsWord(rules, s, c, partial, id, m);
      }
    }
  }

  lemma StepIsWord(rules: Rules, s: Stack, c: CodePoint, partial: PartialUtf8, id: nat, m: Stack)
    requires WellFormed(rules) && partial.nRemain == 0 && Bounded(partial)
    ensures PassesBehind(rules, s, [c], partial, id, m) <==> FollowsWord(rules, s, [c], m)
    ensures s == [] ==> !FollowsWord(rules, s, [c], m)
  {
    var word, none: Word := [c], [];
    assert word[1..] == none && none[..0] == none && none[0..] == none;
    if Follows(rules, s, c, m) {
      assert PassesAt(rules, m, none, partial, id, 0, m);
      FollowsFirst(rules, s, word, m, m);
    }
    if FollowsWord(rules, s, word, m) {
      var x := FirstFollower(rules, s, word, m);
    }
  }

  lemma OneCharacterAgrees(rules: Rules, stacks: seq<Stack>, partial: PartialUtf8, vocab: Vocab, id: nat)
    requires WellFormed(rules) && AllSettled(rules, stacks) && AllLively(rules, stacks)
    requires Bounded(partial) && Filtered(vocab, id)
    requires Decode(vocab.piece(id), partial).partial.nRemain == 0
    requires OneOrHopeless(WordOf(vocab.piece(id), partial), Decode(vocab.piece(id), partial).partial)
    ensures AgreesThroughout(rules, stacks, partial, vocab, id)
  {
    var word, p := WordOf(vocab.piece(id), partial), Decode(vocab.piece(id), partial).partial;
    FilterDecides(rules, stacks, partial, vocab, id);
    assert word == [word[0]] && BeforeNul(word) == word;
    forall s | s in stacks
      ensures PassesSome(rules, s, word, p, id) <==> exists t :: TokenFollows(rules, s, id, word, t)
    {
      OneStep(rules, s, word[0], p, id);
    }
    WholeIsFit(rules, stacks, partial, vocab.piece(id), id);
    if OnePasses(rules, stacks, word, p, id) {
      var s :| s in stacks && PassesSome(rules, s, word, p, id);
      var t :| TokenFollows(rules, s, id, word, t);
      assert TokenFollowsOne(rules, stacks, id, word, t);
    }
    if t :| TokenFollowsOne(rules, stacks, id, word, t) {
      var s :| s in stacks && TokenFollows(rules, s, id, word, t);
      assert PassesSome(rules, s, word, p, id);
    }
  }

  /** Behind whole characters every stack that is left fits. */
  lemma WholeIsFit(rules: Rules, stacks: seq<Stack>, partial: PartialUtf8, piece: seq<Byte>, id: nat)
    requires WellFormed(rules) && Bounded(partial) && Decode(piece, partial).partial.nRemain == 0
    ensures LeavesFit(rules, stacks, partial, piece, id) <==> LeavesStack(rules, stacks, partial, piece, id)
  {
  }

  lemma UnreadableAgrees(rules: Rules, stacks: seq<Stack>, partial: PartialUtf8, vocab: Vocab, id: nat)
    requires WellFormed(rules) && AllSettled(rules, stacks) && Bounded(partial) && Filtered(vocab, id)
    requires Decode(vocab.piece(id), partial).partial.nRemain != 0
    requires OneOrHopeless(WordOf(vocab.piece(id), partial), Decode(vocab.piece(id), partial).partial)
    ensures AgreesThroughout(rules, stacks, partial, vocab, id)
  {
    var p := Decode(vocab.piece(id), partial).partial;
    FilterDecides(rules, stacks, partial, vocab, id);
    assert forall t :: !PartialFits(rules, t, p);
  }

  // ---------------------------------------------------------------------------------------
  // Grammars on which they differ
  // ---------------------------------------------------------------------------------------

  /** A terminal. */
  predicate Plain(e: Element) {
    IsSymbolStart(e) && !e.kind.RULE_REF?
  }

  /** root ::= the element */
  function Single(e: Element): Rules {
    [[e, Element(END, 0)]]
  }

  /** root ::= both elements */
  function Double(e: Element, f: Element): Rules {
    [[e, f, Element(END, 0)]]
  }

  /** One rule without references, which starts with a terminal. */
  predicate OneRule(rules: Rules) {
    && |rules| == 1 && WellShaped(rules[0]) && Plain(rules[0][0])
    && forall i :: 0 <= i < |rules[0]| ==> !rules[0][i].kind.RULE_REF?
  }

  function Start(): seq<Stack> {
    [[Frame(0, 0)]]
  }

  /** Such a grammar is in order, and the stack of its first element settled and able to go on. */
  lemma OneRuleStarts(rules: Rules)
    requires OneRule(rules)
    ensures WellFormed(rules) && AllSettled(rules, Start()) && AllLively(rules, Start())
  {
    AltStartAnchored(rules, 0, 0);
    ReachesItself(rules, 0);
    assert LeadsTo(rules, 0, Frame(0, 0));
    assert forall q: nat | Uses(rules, 0, q) && q < |rules| :: q == 0 && CanStart(rules, q);
    assert StartsFrom(rules, 0);
  }

  lemma SingleIsOneRule(e: Element)
    requires Plain(e)
    ensures OneRule(Single(e)) && AfterTop(Single(e), [Frame(0, 0)]) == []
  {
  }

  /** Such grammars exist: root ::= the token, or any token but this one. */
  lemma SingleWaits(id: nat, inverse: bool)
    ensures var rules := Single(Element(if inverse then TOKEN_NOT else TOKEN, id));
      && WellFormed(rules) && AllSettled(rules, Start()) && AllLively(rules, Start())
      && WaitsFor(rules, [Frame(0, 0)], id, inverse)
  {
    SingleIsOneRule(Element(if inverse then TOKEN_NOT else TOKEN, id));
    OneRuleStarts(Single(Element(if inverse then TOKEN_NOT else TOKEN, id)));
  }

  lemma DoubleIsOneRule(e: Element, f: Element)
    requires Plain(e) && Plain(f)
    ensures OneRule(Double(e, f)) && AfterTop(Double(e, f), [Frame(0, 0)]) == [Frame(0, 1)]
    ensures SymbolEnd(Double(e, f)[0], 1) == 2
  {
  }

  /** A settled stack expands to itself only. */
  lemma SettledStays(rules: Rules, s: Stack, t: Stack)
    requires WellFormed(rules) && Settled(rules, s)
    ensures AdvancesTo(rules, s, t) <==> s == t
  {
    ReachesSelf(rules, s);
    if Reaches(rules, s, t) {
      ReachesInvariant(rules, s, t, iset{s});
    }
  }

  /** The filter stops at a token element. Here nothing follows it, and the cut-off end fits nowhere. */
  lemma EndIsLost(partial: PartialUtf8, vocab: Vocab, id: nat)
    requires Bounded(partial) && Filtered(vocab, id) && BeforeNul(WordOf(vocab.piece(id), partial)) != []
    requires Decode(vocab.piece(id), partial).partial.nRemain != 0
    ensures !AgreesThroughout(Single(Element(TOKEN, id)), Start(), partial, vocab, id)
  {
    var rules, s := Single(Element(TOKEN, id)), [Frame(0, 0)];
    var w, p := BeforeNul(WordOf(vocab.piece(id), partial)), Decode(vocab.piece(id), partial).partial;
    SingleIsOneRule(Element(TOKEN, id));
    OneRuleStarts(rules);
    FilterDecides(rules, Start(), partial, vocab, id);
    assert w[0..] == w;
    assert PassesAt(rules, s, w, p, id, 0, s) && s in Start();
    forall t
      ensures TokenFollowsOne(rules, Start(), id, WordOf(vocab.piece(id), partial), t) ==> t == []
    {
      SettledStays(rules, [], t);
    }
  }

  /** A token of nothing but a cut-off end could be taken as a token, but the filter asks for characters. */
  lemma FragmentIsMasked(partial: PartialUtf8, vocab: Vocab, id: nat)
    requires Bounded(partial) && Filtered(vocab, id) && BeforeNul(WordOf(vocab.piece(id), partial)) == []
    requires var p := Decode(vocab.piece(id), partial).partial; p.nRemain != 0 && !Hopeless(p)
    ensures !AgreesThroughout(Double(Element(TOKEN, id), Element(CHAR_NOT, 0)), Start(), partial, vocab, id)
  {
    var rules, s, t := Double(Element(TOKEN, id), Element(CHAR_NOT, 0)), [Frame(0, 0)], [Frame(0, 1)];
    var p, word := Decode(vocab.piece(id), partial).partial, WordOf(vocab.piece(id), partial);
    DoubleIsOneRule(Element(TOKEN, id), Element(CHAR_NOT, 0));
    OneRuleStarts(rules);
    FilterDecides(rules, Start(), partial, vocab, id);
    SettledStays(rules, t, t);
    NotNulFits(rules, t, p);
    assert TokenFollows(rules, s, id, word, t) && s in Start();
    assert TokenFollowsOne(rules, Start(), id, word, t);
    FragmentPassesNowhere(rules, s, p, id);
  }

  lemma FragmentPassesNowhere(rules: Rules, s: Stack, p: PartialUtf8, id: nat)
    requires WellFormed(rules) && Bounded(p) && p.nRemain != 0 && s != [] && ValidFrame(rules, Top(s))
    requires IsToken(ElementAt(rules, Top(s)))
    ensures !PassesSome(rules, s, [], p, id)
  {
  }

  /** What is cut off can go on as a character other than NUL. */
  lemma NotNulFits(rules: Rules, t: Stack, p: PartialUtf8)
    requires Bounded(p) && p.nRemain != 0 && !Hopeless(p) && t != [] && ValidFrame(rules, Top(t))
    requires ElementAt(rules, Top(t)) == Element(CHAR_NOT, 0) &&
      SymbolEnd(rules[Top(t).rule], Top(t).idx) == Top(t).idx + 1
    requires Top(t).idx + 1 < |rules[Top(t).rule]| && rules[Top(t).rule][Top(t).idx + 1].kind.END?
    ensures PartialFits(rules, t, p)
  {
  }

  /** A token that begins with NUL passes the filter wherever another token is waited for. */
  lemma NulPasses(partial: PartialUtf8, vocab: Vocab, id: nat)
    requires Bounded(partial) && Filtered(vocab, id) && BeforeNul(WordOf(vocab.piece(id), partial)) == []
    requires Decode(vocab.piece(id), partial).partial.nRemain == 0
    ensures !AgreesThroughout(Single(Element(TOKEN, id + 1)), Start(), partial, vocab, id)
  {
    var rules, s := Single(Element(TOKEN, id + 1)), [Frame(0, 0)];
    var p, none: Word := Decode(vocab.piece(id), partial).partial, [];
    SingleIsOneRule(Element(TOKEN, id + 1));
    OneRuleStarts(rules);
    FilterDecides(rules, Start(), partial, vocab, id);
    assert none[..0] == none && none[0..] == none;
    assert PassesAt(rules, s, none, p, id, 0, s) && s in Start();
    assert forall t :: !TokenFollowsOne(rules, Start(), id, WordOf(vocab.piece(id), partial), t);
  }

  /** A token element behind the first character is matched by the filter, and never when the token is taken. */
  lemma InsideIsMatched(partial: PartialUtf8, vocab: Vocab, id: nat)
    requires Bounded(partial) && Filtered(vocab, id)
    requires var word := WordOf(vocab.piece(id), partial); |word| > 1 && word[0] != 0
    requires Decode(vocab.piece(id), partial).partial.nRemain == 0
    ensures var word := WordOf(vocab.piece(id), partial);
      !AgreesThroughout(Double(Element(CHAR, word[0]), Element(TOKEN, id)), Start(), partial, vocab, id)
  {
    var p, word := Decode(vocab.piece(id), partial).partial, WordOf(vocab.piece(id), partial);
    var rules, s, w := Double(Element(CHAR, word[0]), Element(TOKEN, id)), [Frame(0, 0)], BeforeNul(word);
    DoubleIsOneRule(Element(CHAR, word[0]), Element(TOKEN, id));
    OneRuleStarts(rules);
    FilterDecides(rules, Start(), partial, vocab, id);
    CharThenToken(word[0], id, p, w);
    assert s in Start();
    forall t
      ensures !TokenFollowsOne(rules, Start(), id, word, t)
    {
      TokenStopsWord(word, id, t);
    }
  }

  lemma CharThenToken(c: CodePoint, id: nat, p: PartialUtf8, w: Word)
    requires Bounded(p) && p.nRemain == 0 && w != [] && w[0] == c &&
      OneRule(Double(Element(CHAR, c), Element(TOKEN, id)))
    ensures WellFormed(Double(Element(CHAR, c), Element(TOKEN, id)))
    ensures PassesSome(Double(Element(CHAR, c), Element(TOKEN, id)), [Frame(0, 0)], w, p, id)
  {
    var rules, s, t := Double(Element(CHAR, c), Element(TOKEN, id)), [Frame(0, 0)], [Frame(0, 1)];
    DoubleIsOneRule(Element(CHAR, c), Element(TOKEN, id));
    OneRuleStarts(rules);
    SettledStays(rules, t, t);
    assert ItemCovers(rules[0], 0, c);
    assert Follows(rules, s, c, t);
    assert w[..1] == [c] && w[..1][1..] == [];
    FollowsFirst(rules, s, w[..1], t, t);
    assert PassesAt(rules, s, w, p, id, 1, t);
  }

  lemma TokenStopsWord(word: Word, id: nat, t: Stack)
    requires |word| > 1 && OneRule(Double(Element(CHAR, word[0]), Element(TOKEN, id)))
    requires WellFormed(Double(Element(CHAR, word[0]), Element(TOKEN, id)))
    ensures !FollowsWord(Double(Element(CHAR, word[0]), Element(TOKEN, id)), [Frame(0, 0)], word, t)
  {
    var rules, s := Double(Element(CHAR, word[0]), Element(TOKEN, id)), [Frame(0, 0)];
    DoubleIsOneRule(Element(CHAR, word[0]), Element(TOKEN, id));
    if FollowsWord(rules, s, word, t) {
      var m := FirstFollower(rules, s, word, t);
      SettledStays(rules, [Frame(0, 1)], m);
      StopsAtToken(rules, m, word[1..], t);
    }
  }

  lemma StopsAtToken(rules: Rules, s: Stack, word: Word, t: Stack)
    requires WellFormed(rules) && word != [] && s != [] && ValidFrame(rules, Top(s)) &&
      IsToken(ElementAt(rules, Top(s)))
    ensures !FollowsWord(rules, s, word, t)
  {
  }

  /**
    With token elements masking and taking agree on every grammar if and only if the token is one whole
    character other than NUL, or one that no byte can complete, with nothing in front of it.
    */
  lemma AgreeIff(partial: PartialUtf8, vocab: Vocab, id: nat)
    requires Bounded(partial) && Filtered(vocab, id)
    ensures (forall rules, stacks :: AgreesThroughout(rules, stacks, partial, vocab, id)) <==>
      OneOrHopeless(WordOf(vocab.piece(id), partial), Decode(vocab.piece(id), partial).partial)
  {
    var word, p := WordOf(vocab.piece(id), partial), Decode(vocab.piece(id), partial).partial;
    PieceDelivers(vocab.piece(id), partial);
    if OneOrHopeless(word, p) {
      forall rules, stacks
        ensures AgreesThroughout(rules, stacks, partial, vocab, id)
      {
        if WellFormed(rules) && AllSettled(rules, stacks) && AllLively(rules, stacks) {
          if p.nRemain == 0 {
            OneCharacterAgrees(rules, stacks, partial, vocab, id);
          } else {
            UnreadableAgrees(rules, stacks, partial, vocab, id);
          }
        }
      }
    } else {
      SomeDiffers(partial, vocab, id);
    }
  }

  lemma SomeDiffers(partial: PartialUtf8, vocab: Vocab, id: nat)
    requires Bounded(partial) && Filtered(vocab, id)
    requires !OneOrHopeless(WordOf(vocab.piece(id), partial), Decode(vocab.piece(id), partial).partial)
    ensures exists rules, stacks :: !AgreesThroughout(rules, stacks, partial, vocab, id)
  {
    var word, p := WordOf(vocab.piece(id), partial), Decode(vocab.piece(id), partial).partial;
    if p.nRemain != 0 && BeforeNul(word) != [] {
      EndIsLost(partial, vocab, id);
    } else if p.nRemain != 0 {
      FragmentIsMasked(partial, vocab, id);
    } else if BeforeNul(word) == [] {
      NulPasses(partial, vocab, id);
    } else {
      InsideIsMatched(partial, vocab, id);
    }
  }
}
