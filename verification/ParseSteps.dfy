/**
  Reading and building go hand in hand: the parser builds the table while it reads. This says
  what has been built when a part of the text has been read, and that a rejected repetition
  is not made good by any text that follows.
  */
module ParseSteps {
  import opened GrammarElements
  import opened GrammarSyntax
  import opened RuleTable

  // ---------------------------------------------------------------------------------------
  // Sequences
  // ---------------------------------------------------------------------------------------

  /** The items of `s` gave the elements `els`; the last item starts at `last` and counts as `count` rules. */
  ghost predicate Built(t0: Table, base: Name, s: Sequence, t: Table, els: seq<Element>, last: nat, count: nat) {
    last <= |els| && if s.Nothing? then t == t0 && els == [] &&
      count == 1 else BuiltLast(t0, base, s, t, els, last, count)
  }

  ghost predicate BuiltLast(t0: Table, base: Name, s: Sequence, t: Table, els: seq<Element>, last: nat, count: nat)
    requires s.Then? && last <= |els|
  {
    var o := CompileSequence(t0, base, s.front);
    o.Output? && o.els == els[..last] && CompileItem(o.table, base, s.item) == Output(t, els[last..], count)
  }

  lemma BuiltCompiles(t0: Table, base: Name, s: Sequence, t: Table, els: seq<Element>, last: nat, count: nat)
    requires Built(t0, base, s, t, els, last, count)
    ensures CompileSequence(t0, base, s) == Output(t, els, count)
  {
    if s.Then? {
      assert els[..last] + els[last..] == els;
    }
  }

  /** What was built is well formed, and so is its last symbol. */
  lemma BuiltOk(t0: Table, base: Name, s: Sequence, t: Table, els: seq<Element>, last: nat, count: nat)
    requires Sound(t0) && UNDERSCORE !in base && SequenceFits(s) && Built(t0, base, s, t, els, last, count)
    ensures Sound(t) && Grown(t0, t) && IsBody(els, |t.ids|) && IsBody(els[last..], |t.ids|) && count >= 1
  {
    BuiltCompiles(t0, base, s, t, els, last, count);
    CompileSequenceOk(t0, base, s);
    if s.Then? {
      CompileSequenceOk(t0, base, s.front);
      CompileItemOk(CompileSequence(t0, base, s.front).table, base, s.item);
    }
  }

  /** One item more. */
  lemma BuiltItem(t0: Table, base: Name, s: Sequence, t: Table, els: seq<Element>, last: nat, count: nat,
                  item: Item, t': Table, sym: seq<Element>, count': nat)
    requires Built(t0, base, s, t, els, last, count) && CompileItem(t, base, item) == Output(t', sym, count')
    ensures Built(t0, base, Then(s, item), t', els + sym, |els|, count')
  {
    BuiltCompiles(t0, base, s, t, els, last, count);
    assert (els + sym)[..|els|] == els && (els + sym)[|els|..] == sym;
  }

  /** The last item is repeated. */
  lemma BuiltRepeat(t0: Table, base: Name, s: Sequence, t: Table, els: seq<Element>, last: nat, count: nat,
                    times: Times, t': Table, els': seq<Element>, count': nat)
    requires s.Then? && Built(t0, base, s, t, els, last, count) && last <= |els'| && els'[..last] == els[..last]
    requires Repeated(t, base, els[last..], count, times.min, times.max) == Output(t', els'[last..], count')
    ensures Built(t0, base, Then(s.front, Repeat(s.item, times.min, times.max)), t', els', last, count')
  {
  }

  lemma RepeatRejected(t0: Table, base: Name, s: Sequence, t: Table, els: seq<Element>, last: nat, count: nat,
                       times: Times)
    requires s.Then? && Built(t0, base, s, t, els, last, count)
    requires Repeated(t, base, els[last..], count, times.min, times.max).Rejected?
    ensures CompileSequence(t0, base, Then(s.front, Repeat(s.item, times.min, times.max))).Rejected?
  {
  }

  lemma ItemRejected(t0: Table, base: Name, s: Sequence, t: Table, els: seq<Element>, last: nat, count: nat, item: Item)
    requires Built(t0, base, s, t, els, last, count) && CompileItem(t, base, item).Rejected?
    ensures CompileSequence(t0, base, Then(s, item)).Rejected?
  {
    BuiltCompiles(t0, base, s, t, els, last, count);
  }

  /** The text from here on cannot become a part of a grammar. */
  ghost predicate SequenceFails(t0: Table, base: Name, r: Reading<Sequence>) {
    r.Read? ==> CompileSequence(t0, base, r.value).Rejected?
  }

  ghost predicate AlternatesFail(t0: Table, base: Name, r: Reading<Alternates>) {
    r.Read? ==> CompileAlternates(t0, base, r.value).Rejected?
  }

  /** Nothing that follows makes up for a rejected repetition. */
  lemma {:induction false} StaysRejected(t0: Table, base: Name, s: Text, nested: bool, vocab: Vocab, acc: Sequence)
    requires SequenceFits(acc) && CompileSequence(t0, base, acc).Rejected?
    ensures SequenceFails(t0, base, ReadSequence(s, nested, vocab, acc))
    decreases |s|
  {
    var c := At(s, 0);
    if StartsTerminal(c) {
      var r := ReadTerminal(s, vocab);
      if r.Read? {
        StaysRejected(t0, base, SkipSpace(r.rest, nested), nested, vocab, Append(acc, Terminal(r.value)));
      }
    } else if IsWordChar(c) {
      var n := NameLength(s);
      StaysRejected(t0, base, SkipSpace(s[n..], nested), nested, vocab, Append(acc, Named(s[..n])));
    } else if c == '(' as int {
      var r := ReadGroup(s, nested, vocab);
      if r.Read? {
        StaysRejected(t0, base, r.rest, nested, vocab, Append(acc, Group(r.value)));
      }
    } else if IsPostfix(c) {
      var r := ReadPostfix(s, nested);
      if r.Read? && acc.Then? {
        StaysRejected(t0, base, r.rest, nested, vocab, Append(acc.front, Repeat(acc.item, r.value.min, r.value.max)));
      }
    }
  }

  /** An alternate in the middle: `rule` holds `before` and what the items of `acc` became. */
  ghost predicate Stage(t0: Table, base: Name, before: seq<Element>, acc: Sequence, t: Table, rule: seq<Element>,
                        last: nat, count: nat) {
    before <= rule && |before| <= last && SequenceFits(acc)
    && Built(t0, base, acc, t, rule[|before|..], last - |before|, count)
  }

  lemma StageOk(t0: Table, base: Name, before: seq<Element>, acc: Sequence, t: Table, rule: seq<Element>, last: nat,
                count: nat)
    requires Sound(t0) && UNDERSCORE !in base && Stage(t0, base, before, acc, t, rule, last, count)
    ensures last <= |rule| && IsBody(rule[last..], |t.ids|) && count >= 1
  {
    BuiltOk(t0, base, acc, t, rule[|before|..], last - |before|, count);
    Slices(rule, |before|, last);
  }

  lemma Slices(rule: seq<Element>, from: nat, last: nat)
    requires from <= last <= |rule|
    ensures rule[from..][last - from..] == rule[last..] && rule[from..][..last - from] == rule[..last][from..]
    ensures rule[..last][..from] == rule[..from]
  {
  }

  /** Reading goes on behind an item, or the whole sequence fails. */
  ghost predicate Step(t0: Table, base: Name, s: Text, nested: bool, vocab: Vocab, acc: Sequence, ok: bool, rest: Text,
                       acc': Sequence)
    requires SequenceFits(acc)
  {
    if ok then SequenceFits(acc') && ReadSequence(s, nested, vocab, acc) == ReadSequence(rest, nested, vocab, acc')
    else SequenceFails(t0, base, ReadSequence(s, nested, vocab, acc))
  }

  lemma StageItem(t0: Table, base: Name, before: seq<Element>, acc: Sequence, t: Table, rule: seq<Element>, last: nat,
                  count: nat, item: Item, t': Table, sym: seq<Element>, count': nat)
    requires Stage(t0, base, before, acc, t, rule, last, count) && ItemFits(item)
    requires CompileItem(t, base, item) == Output(t', sym, count')
    ensures Stage(t0, base, before, Append(acc, item), t', rule + sym, |rule|, count')
  {
    var els := rule[|before|..];
    BuiltItem(t0, base, acc, t, els, last - |before|, count, item, t', sym, count');
    var c := rule + sym;
    assert c[|before|..] == els + sym && c[..|rule|] == rule;
    assert before == c[..|before|];
  }

  lemma TakeTerminal(t0: Table, base: Name, before: seq<Element>, acc: Sequence, t: Table, rule: seq<Element>,
                     last: nat, count: nat, s: Text, nested: bool, vocab: Vocab, sym: seq<Element>, rest: Text)
    requires Stage(t0, base, before, acc, t, rule, last, count)
    requires StartsTerminal(At(s, 0)) && ReadTerminal(s, vocab) == Read(sym, rest)
    ensures Stage(t0, base, before, Then(acc, Terminal(sym)), t, rule + sym, |rule|, 1)
    ensures Step(t0, base, s, nested, vocab, acc, true, SkipSpace(rest, nested), Then(acc, Terminal(sym)))
  {
    assert ItemFits(Terminal(sym));
    StageItem(t0, base, before, acc, t, rule, last, count, Terminal(sym), t, sym, 1);
  }

  lemma TakeReference(t0: Table, base: Name, before: seq<Element>, acc: Sequence, t: Table, rule: seq<Element>,
                      last: nat, count: nat, s: Text, nested: bool, vocab: Vocab, name: Name)
    requires Stage(t0, base, before, acc, t, rule, last, count)
    requires !StartsTerminal(At(s, 0)) && IsWordChar(At(s, 0)) && name == s[..NameLength(s)]
    ensures Stage(t0, base, before, Then(acc, Named(name)), Lookup(t, name),
      rule + [Element(RULE_REF, Lookup(t, name).ids[name])], |rule|, 1)
    ensures Step(t0, base, s, nested, vocab, acc, true, SkipSpace(s[NameLength(s)..], nested), Then(acc, Named(name)))
  {
    assert ItemFits(Named(name));
    StageItem(t0, base, before, acc, t, rule, last, count, Named(name), Lookup(t, name),
      [Element(RULE_REF, Lookup(t, name).ids[name])], 1);
  }

  lemma TakeGroup(t0: Table, base: Name, before: seq<Element>, acc: Sequence, t: Table, rule: seq<Element>, last: nat,
                  count: nat, s: Text, nested: bool, vocab: Vocab, t': Table, sym: seq<Element>, count': nat)
    requires Stage(t0, base, before, acc, t, rule, last, count) && Is(s, 0, '(') && ReadGroup(s, nested, vocab).Read?
    requires CompileGroup(t, base, ReadGroup(s, nested, vocab).value) == Output(t', sym, count')
    ensures var acc' := Then(acc, Group(ReadGroup(s, nested, vocab).value));
      && Stage(t0, base, before, acc', t', rule + sym, |rule|, count')
      && Step(t0, base, s, nested, vocab, acc, true, ReadGroup(s, nested, vocab).rest, acc')
  {
    var item := Group(ReadGroup(s, nested, vocab).value);
    assert ItemFits(item);
    StageItem(t0, base, before, acc, t, rule, last, count, item, t', sym, count');
  }

  lemma GroupFails(t0: Table, base: Name, before: seq<Element>, acc: Sequence, t: Table, rule: seq<Element>, last: nat,
                   count: nat, s: Text, nested: bool, vocab: Vocab)
    requires Stage(t0, base, before, acc, t, rule, last, count) && Is(s, 0, '(')
    requires var r := ReadGroup(s, nested, vocab); r.Read? ==> CompileGroup(t, base, r.value).Rejected?
    ensures Step(t0, base, s, nested, vocab, acc, false, s, acc)
  {
    var r := ReadGroup(s, nested, vocab);
    if r.Read? {
      assert ItemFits(Group(r.value));
      ItemRejected(t0, base, acc, t, rule[|before|..], last - |before|, count, Group(r.value));
      StaysRejected(t0, base, r.rest, nested, vocab, Append(acc, Group(r.value)));
    }
  }

  /** The sequence with its last item repeated. */
  function RepeatLast(s: Sequence, times: Times): (r: Sequence)
    requires s.Then? && SequenceFits(s)
    ensures SequenceFits(r)
  {
    Append(s.front, Repeat(s.item, times.min, times.max))
  }

  lemma StageRepeat(t0: Table, base: Name, before: seq<Element>, acc: Sequence, t: Table, rule: seq<Element>, last: nat,
                    count: nat, times: Times, t': Table, rule': seq<Element>, count': nat)
    requires Stage(t0, base, before, acc, t, rule, last, count) && acc.Then?
    requires last <= |rule| && last <= |rule'| && rule'[..last] == rule[..last]
    requires Repeated(t, base, rule[last..], count, times.min, times.max) == Output(t', rule'[last..], count')
    ensures Stage(t0, base, before, RepeatLast(acc, times), t', rule', last, count')
  {
    var els, els', k := rule[|before|..], rule'[|before|..], last - |before|;
    assert els[k..] == rule[last..] && els'[k..] == rule'[last..] && els'[..k] == els[..k] && before <= rule' by {
      Slices(rule, |before|, last);
      Slices(rule', |before|, last);
    }
    BuiltRepeat(t0, base, acc, t, els, k, count, times, t', els', count');
  }

  lemma StageSome(t0: Table, base: Name, before: seq<Element>, acc: Sequence, t: Table, rule: seq<Element>, last: nat,
                  count: nat)
    requires Stage(t0, base, before, acc, t, rule, last, count) && last < |rule|
    ensures acc.Then?
  {
  }

  lemma TakePostfix(t0: Table, base: Name, acc: Sequence, s: Text, nested: bool, vocab: Vocab, times: Times, rest: Text)
    requires SequenceFits(acc) && acc.Then? && IsPostfix(At(s, 0)) && ReadPostfix(s, nested) == Read(times, rest)
    ensures Step(t0, base, s, nested, vocab, acc, true, rest, RepeatLast(acc, times))
  {
  }

  lemma PostfixFails(t0: Table, base: Name, before: seq<Element>, acc: Sequence, t: Table, rule: seq<Element>,
                     last: nat, count: nat, s: Text, nested: bool, vocab: Vocab)
    requires Stage(t0, base, before, acc, t, rule, last, count) && IsPostfix(At(s, 0)) && last <= |rule|
    requires var r := ReadPostfix(s, nested);
      r.Read? ==> Repeated(t, base, rule[last..], count, r.value.min, r.value.max).Rejected?
    ensures Step(t0, base, s, nested, vocab, acc, false, s, acc)
  {
    var r := ReadPostfix(s, nested);
    if r.Read? && acc.Then? {
      LastRejected(t0, base, before, acc, t, rule, last, count, r.value);
      StaysRejected(t0, base, r.rest, nested, vocab, RepeatLast(acc, r.value));
    }
  }

  lemma LastRejected(t0: Table, base: Name, before: seq<Element>, acc: Sequence, t: Table, rule: seq<Element>,
                     last: nat, count: nat, times: Times)
    requires Stage(t0, base, before, acc, t, rule, last, count) && last <= |rule| && acc.Then?
    requires Repeated(t, base, rule[last..], count, times.min, times.max).Rejected?
    ensures CompileSequence(t0, base, RepeatLast(acc, times)).Rejected?
  {
    var els, k := rule[|before|..], last - |before|;
    assert els[k..] == rule[last..] by {
      Slices(rule, |before|, last);
    }
    RepeatRejected(t0, base, acc, t, els, k, count, times);
  }

  // ---------------------------------------------------------------------------------------
  // Alternates
  // ---------------------------------------------------------------------------------------

  lemma {:induction false} MoreStaysRejected(t0: Table, base: Name, s: Text, nested: bool, vocab: Vocab,
                                             acc: Alternates)
    requires AlternatesFit(acc) && CompileAlternates(t0, base, acc).Rejected?
    ensures AlternatesFail(t0, base, ReadMore(s, nested, vocab, acc))
    decreases |s|
  {
    if Is(s, 0, '|') {
      var r := ReadSequence(SkipSpace(s[1..], true), nested, vocab, Nothing);
      if r.Read? {
        MoreStaysRejected(t0, base, r.rest, nested, vocab, Or(acc, r.value));
      }
    }
  }

  /** What a sequence of the text became: its elements, or a failure. */
  ghost predicate SequenceGives(t0: Table, base: Name, r: Reading<Sequence>, ok: bool, t: Table, els: seq<Element>,
                                rest: Text) {
    if ok then
      r.Read? && r.rest == rest && CompileSequence(t0, base, r.value).Output?
      && CompileSequence(t0, base, r.value).table == t && CompileSequence(t0, base, r.value).els == els
    else
      SequenceFails(t0, base, r)
  }

  ghost predicate AlternatesGive(t0: Table, base: Name, r: Reading<Alternates>, ok: bool, t: Table, els: seq<Element>,
                                 rest: Text) {
    if ok then
      r.Read? && r.rest == rest && CompileAlternates(t0, base, r.value).Output?
      && CompileAlternates(t0, base, r.value).table == t && CompileAlternates(t0, base, r.value).els == els
    else
      AlternatesFail(t0, base, r)
  }

  /** The alternates become the definition of `id`. */
  ghost predicate AlternatesDefine(t0: Table, base: Name, r: Reading<Alternates>, ok: bool, id: nat, t: Table,
                                   rest: Text) {
    if ok then
      r.Read? && r.rest == rest && CompileAlternates(t0, base, r.value).Output?
      && t == Define(CompileAlternates(t0, base, r.value).table, id,
          CompileAlternates(t0, base, r.value).els + [Element(END, 0)])
    else
      AlternatesFail(t0, base, r) && Grown(t0, t)
  }

  /** A group that was read, or not. */
  ghost predicate GroupGives(t: Table, base: Name, r: Reading<Alternates>, ok: bool, t': Table, id: nat, count: nat,
                             rest: Text) {
    if ok then r.Read? && r.rest == rest && CompileGroup(t, base, r.value) == Output(t', [Element(RULE_REF, id)], count)
    else r.Read? ==> CompileGroup(t, base, r.value).Rejected?
  }

  lemma GroupDone(t: Table, base: Name, s: Text, nested: bool, vocab: Vocab, ok: bool, t': Table, rest: Text)
    requires Is(s, 0, '(')
    requires AlternatesDefine(Generate(t, base), base, ReadAlternates(SkipSpace(s[1..], true), true, vocab), ok,
      |t.ids|, t', rest)
    ensures var n := |t'.ids| - |t.ids|;
      GroupGives(t, base, ReadGroup(s, nested, vocab), ok && Is(rest, 0, ')'), t', |t.ids|, if n < 1 then 1 else n,
                 if ok && Is(rest, 0, ')') then SkipSpace(rest[1..], nested) else rest)
  {
  }

  lemma GroupKeeps(t: Table, base: Name, r: Reading<Alternates>, ok: bool, t': Table, rest: Text)
    requires Sound(t) && UNDERSCORE !in base && (r.Read? ==> AlternatesFit(r.value))
    requires AlternatesDefine(Generate(t, base), base, r, ok, |t.ids|, t', rest)
    ensures Grown(t, t')
  {
    if ok {
      CompileGroupOk(t, base, r.value);
    } else {
      GenerateSound(t, base);
      GrownTransitive(t, Generate(t, base), t');
    }
  }

  /** The first alternate. */
  lemma FirstAlternate(t0: Table, base: Name, s: Text, nested: bool, vocab: Vocab, ok: bool, t: Table,
                       els: seq<Element>, rest: Text)
    requires SequenceGives(t0, base, ReadSequence(s, nested, vocab, Nothing), ok, t, els, rest)
    ensures var r := ReadSequence(s, nested, vocab, Nothing);
      if ok then
        && AlternatesGive(t0, base, Read(One(r.value), rest), true, t, els, rest) && AlternatesFit(One(r.value))
        && ReadAlternates(s, nested, vocab) == ReadMore(rest, nested, vocab, One(r.value))
      else AlternatesFail(t0, base, ReadAlternates(s, nested, vocab))
  {
    var r := ReadSequence(s, nested, vocab, Nothing);
    if !ok && r.Read? {
      MoreStaysRejected(t0, base, r.rest, nested, vocab, One(r.value));
    }
  }

  /** One alternate more. */
  lemma NextAlternate(t0: Table, base: Name, s: Text, nested: bool, vocab: Vocab, acc: Alternates, t: Table,
                      front: seq<Element>, ok: bool, t': Table, els: seq<Element>, rest: Text)
    requires Is(s, 0, '|') && AlternatesFit(acc) && AlternatesGive(t0, base, Read(acc, s), true, t, front, s)
    requires SequenceGives(t, base, ReadSequence(SkipSpace(s[1..], true), nested, vocab, Nothing), ok, t', els, rest)
    ensures var r := ReadSequence(SkipSpace(s[1..], true), nested, vocab, Nothing);
      if ok then
        && AlternatesGive(t0, base, Read(Or(acc, r.value), rest), true, t', front + [Element(ALT, 0)] + els, rest)
        && AlternatesFit(Or(acc, r.value))
        && ReadMore(s, nested, vocab, acc) == ReadMore(rest, nested, vocab, Or(acc, r.value))
      else AlternatesFail(t0, base, ReadMore(s, nested, vocab, acc))
  {
    var r := ReadSequence(SkipSpace(s[1..], true), nested, vocab, Nothing);
    if !ok && r.Read? {
      MoreStaysRejected(t0, base, r.rest, nested, vocab, Or(acc, r.value));
    }
  }

  // ---------------------------------------------------------------------------------------
  // Rules
  // ---------------------------------------------------------------------------------------

  ghost predicate RuleGives(t0: Table, r: Reading<Definition>, ok: bool, t: Table, rest: Text) {
    if ok then r.Read? && r.rest == rest && CompileRule(t0, r.value) == Final(t)
    else r.Read? ==> CompileRule(t0, r.value).Failed?
  }

  ghost predicate RulesFail(t0: Table, r: Reading<seq<Definition>>) {
    r.Read? ==> CompileRules(t0, r.value).Failed?
  }

  lemma {:induction false} RulesStayFailed(t0: Table, s: Text, vocab: Vocab, acc: seq<Definition>)
    requires DefinitionsFit(acc) && CompileRules(t0, acc).Failed?
    ensures RulesFail(t0, ReadRules(s, vocab, acc))
    decreases |s|
  {
    if At(s, 0) != 0 {
      var r := ReadRule(s, vocab);
      if r.Read? {
        assert (acc + [r.value])[..|acc|] == acc;
        RulesStayFailed(t0, r.rest, vocab, acc + [r.value]);
      }
    }
  }

  /** One definition more. */
  lemma NextRule(t0: Table, s: Text, vocab: Vocab, acc: seq<Definition>, t: Table, ok: bool, t': Table, rest: Text)
    requires At(s, 0) != 0 && DefinitionsFit(acc) && CompileRules(t0, acc) == Final(t)
    requires RuleGives(t, ReadRule(s, vocab), ok, t', rest)
    ensures var r := ReadRule(s, vocab);
      if ok then
        && CompileRules(t0, acc + [r.value]) == Final(t') && DefinitionsFit(acc + [r.value])
        && ReadRules(s, vocab, acc) == ReadRules(rest, vocab, acc + [r.value])
      else RulesFail(t0, ReadRules(s, vocab, acc))
  {
    var r := ReadRule(s, vocab);
    if r.Read? {
      assert (acc + [r.value])[..|acc|] == acc;
      if !ok {
        RulesStayFailed(t0, r.rest, vocab, acc + [r.value]);
      }
    }
  }
}
