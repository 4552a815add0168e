/**
 * The rule's promises about a whole comparison, at every nesting depth,
 * stated over the paired messages listed by PairsOf.
 */
module StrictProperties {
  import opened Wrappers
  import opened Descriptors
  import opened Walk
  import opened FieldProperties
  import opened MessageProperties

  /** Annotation a is the message-rules diagnostic of pair p, whose rules changed. */
  ghost predicate ReportsMessage<R, E>(o: Resolver<R, E>, p: (Message, Message), a: Annotation)
  {
    MessageChanged(o, p.0, p.1) && a == MessageAnnotation(p.0, p.1)
  }

  /** Annotation a is the field-rules diagnostic of field f of pair p, paired by number, whose rules changed. */
  ghost predicate ReportsField<R, E>(o: Resolver<R, E>, p: (Message, Message), f: Field, a: Annotation)
  {
    && f in p.0.fields
    && Partner(f, p.1.fields).Some?
    && FieldChanged(o, f, Partner(f, p.1.fields).value)
    && a == FieldAnnotation(f, Partner(f, p.1.fields).value)
  }

  /** Pair p's message rules resolve to equal values, and so do those of each of its paired fields. */
  ghost predicate PairUnchanged<R, E>(o: Resolver<R, E>, p: (Message, Message))
  {
    && Unchanged(o, o.messageRules(p.0), o.messageRules(p.1))
    && forall f :: f in p.0.fields && Partner(f, p.1.fields).Some? ==>
         Unchanged(o, o.fieldRules(f), o.fieldRules(Partner(f, p.1.fields).value))
  }

  /** How a failing pair failed: at its message rules with nothing appended, or at one of its fields. */
  ghost predicate PairFailedFast<R, E>(o: Resolver<R, E>, p: (Message, Message))
  {
    || ((o.messageRules(p.0).Failure? || o.messageRules(p.1).Failure?) && PairCheck(o, p.0, p.1).annotations == [])
    || (o.messageRules(p.0).Success? && o.messageRules(p.1).Success?
        && exists i: nat :: FieldsStoppedAt(o, p.0.fields, p.1.fields, i))
  }

  /** Each annotation of one pair's comparison is its message diagnostic or one of its field diagnostics. */
  lemma PairCheckSound<R, E>(o: Resolver<R, E>, m: Message, am: Message)
    ensures forall a :: a in PairCheck(o, m, am).annotations ==>
              ReportsMessage(o, (m, am), a) || exists f :: ReportsField(o, (m, am), f, a)
  {
    PairCheckOrder(o, m, am);
    FieldsWalkSound(o, m.fields, am.fields);
    forall a | a in PairCheck(o, m, am).annotations && !ReportsMessage(o, (m, am), a)
      ensures exists f :: ReportsField(o, (m, am), f, a)
    {
      assert a in FieldsWalk(o, m.fields, am.fields).annotations;
      var f :| f in m.fields && Partner(f, am.fields).Some? && FieldChanged(o, f, Partner(f, am.fields).value)
               && a == FieldAnnotation(f, Partner(f, am.fields).value);
      assert ReportsField(o, (m, am), f, a);
    }
  }

  /**
   * No false positives: every annotation of the walk is the diagnostic of a
   * compared pair whose message rules changed, or of a paired field of a
   * compared pair whose field rules changed.
   */
  lemma WalkSound<R, E>(o: Resolver<R, E>, ms: seq<Message>, ams: seq<Message>)
    ensures forall a :: a in MessagesWalk(o, ms, ams).annotations ==>
              || (exists p :: p in PairsOf(ms, ams) && ReportsMessage(o, p, a))
              || (exists p, f :: p in PairsOf(ms, ams) && ReportsField(o, p, f, a))
  {
    var ps := PairsOf(ms, ams);
    MessagesWalkIsFoldOfPairs(o, ms, ams);
    FoldPairsSound(o, ps);
    forall p | p in ps { PairCheckSound(o, p.0, p.1); }
  }

  /**
   * No false negatives: a walk that ends normally resolved the rules of
   * every compared pair and every paired field, and annotated each such pair
   * or field whose rules changed, however deep it is nested.
   */
  lemma WalkComplete<R, E>(o: Resolver<R, E>, ms: seq<Message>, ams: seq<Message>)
    requires MessagesWalk(o, ms, ams).error.None?
    ensures forall p :: p in PairsOf(ms, ams) ==>
              && o.messageRules(p.0).Success? && o.messageRules(p.1).Success?
              && (MessageChanged(o, p.0, p.1) ==> MessageAnnotation(p.0, p.1) in MessagesWalk(o, ms, ams).annotations)
    ensures forall p, f :: p in PairsOf(ms, ams) && f in p.0.fields && Partner(f, p.1.fields).Some? ==>
              && o.fieldRules(f).Success? && o.fieldRules(Partner(f, p.1.fields).value).Success?
              && (FieldChanged(o, f, Partner(f, p.1.fields).value) ==>
                    FieldAnnotation(f, Partner(f, p.1.fields).value) in MessagesWalk(o, ms, ams).annotations)
  {
    var ps := PairsOf(ms, ams);
    MessagesWalkIsFoldOfPairs(o, ms, ams);
    FoldPairsComplete(o, ps);
    forall p | p in ps
      ensures o.messageRules(p.0).Success? && o.messageRules(p.1).Success?
      ensures MessageChanged(o, p.0, p.1) ==> MessageAnnotation(p.0, p.1) in MessagesWalk(o, ms, ams).annotations
      ensures forall f :: f in p.0.fields && Partner(f, p.1.fields).Some? ==>
                && o.fieldRules(f).Success? && o.fieldRules(Partner(f, p.1.fields).value).Success?
                && (FieldChanged(o, f, Partner(f, p.1.fields).value) ==>
                      FieldAnnotation(f, Partner(f, p.1.fields).value) in MessagesWalk(o, ms, ams).annotations)
    {
      var c := PairCheck(o, p.0, p.1);
      PairCheckOrder(o, p.0, p.1);
      FieldsWalkComplete(o, p.0.fields, p.1.fields);
      if MessageChanged(o, p.0, p.1) {
        assert MessageAnnotation(p.0, p.1) in c.annotations by { assert c.annotations[0] == MessageAnnotation(p.0, p.1); }
      }
      assert forall a :: a in FieldsWalk(o, p.0.fields, p.1.fields).annotations ==> a in c.annotations;
    }
  }

  /**
   * Fail-fast: a failing walk stopped at some compared pair. The pairs
   * visited before it succeeded and kept their annotations; that pair failed
   * at its message rules (appending nothing of its own) or at one of its
   * fields (keeping its annotations up to that field); no later field,
   * message or nested message was compared.
   */
  lemma WalkFailFast<R, E>(o: Resolver<R, E>, ms: seq<Message>, ams: seq<Message>)
    requires MessagesWalk(o, ms, ams).error.Some?
    ensures exists k: nat :: PairsStoppedAt(o, PairsOf(ms, ams), k) && PairFailedFast(o, PairsOf(ms, ams)[k])
  {
    var ps := PairsOf(ms, ams);
    MessagesWalkIsFoldOfPairs(o, ms, ams);
    FoldPairsFailFast(o, ps);
    var k: nat :| PairsStoppedAt(o, ps, k);
    var p := ps[k];
    PairCheckOrder(o, p.0, p.1);
    if o.messageRules(p.0).Success? && o.messageRules(p.1).Success? {
      FieldsWalkFailFast(o, p.0.fields, p.1.fields);
    }
    assert PairFailedFast(o, p);
  }

  /** A pair whose message rules and paired field rules are all unchanged appends nothing and succeeds. */
  lemma PairCheckSilent<R, E>(o: Resolver<R, E>, p: (Message, Message))
    requires PairUnchanged(o, p)
    ensures PairCheck(o, p.0, p.1) == Done()
  {
    PairCheckOrder(o, p.0, p.1);
    FieldsWalkSilent(o, p.0.fields, p.1.fields);
  }

  /** When every compared pair and paired field keeps its rules, the whole walk is silent and succeeds. */
  lemma WalkSilentWhenUnchanged<R, E>(o: Resolver<R, E>, ms: seq<Message>, ams: seq<Message>)
    requires forall p :: p in PairsOf(ms, ams) ==> PairUnchanged(o, p)
    ensures MessagesWalk(o, ms, ams) == Done()
  {
    var ps := PairsOf(ms, ams);
    MessagesWalkIsFoldOfPairs(o, ms, ams);
    forall p | p in ps ensures PairCheck(o, p.0, p.1) == Done() { PairCheckSilent(o, p); }
    FoldPairsSilent(o, ps);
  }

  /** Comparing current messages drawn from a well-formed list against that list pairs each message with itself. */
  lemma {:induction false} PairsOfSelf(cur: seq<Message>, ams: seq<Message>)
    requires WellFormed(ams) && forall m :: m in cur ==> m in ams
    ensures forall p :: p in PairsOf(cur, ams) ==> p.0 == p.1 && UniqueNumbers(p.0.fields)
    decreases cur
  {
    if cur != [] {
      var m := cur[0];
      assert forall x :: x in cur[1..] ==> x in cur;
      PairsOfSelf(cur[1..], ams);
      ByNameFindsSibling(ams, m);
      assert WellFormed(m.nested);
      PairsOfSelf(m.nested, m.nested);
    }
  }

  /**
   * Instantiates the differ's irreflexivity at one rule set: the solver does
   * not instantiate the quantifier at a rule set taken out of a Result.
   */
  lemma NoDiffWithItself<R, E>(o: Resolver<R, E>, rules: R)
    requires forall r :: !o.differs(r, r)
    ensures !o.differs(rules, rules)
  {
  }

  /**
   * A well-formed file compared against itself draws no annotation, provided
   * the differ finds no difference between a rule set and itself, as
   * cmp.Diff does not.
   */
  lemma SelfComparisonSilent<R, E>(o: Resolver<R, E>, ms: seq<Message>)
    requires WellFormed(ms)
    requires forall r :: !o.differs(r, r)
    ensures MessagesWalk(o, ms, ms).annotations == []
  {
    var ps := PairsOf(ms, ms);
    var w := MessagesWalk(o, ms, ms);
    assert |w.annotations| > 0 ==> w.annotations[0] in w.annotations;
    WalkSound(o, ms, ms);
    PairsOfSelf(ms, ms);
    forall p, a | p in ps ensures !ReportsMessage(o, p, a) {
      var rules := o.messageRules(p.0);
      if rules.Success? { NoDiffWithItself(o, rules.value); }
    }
    forall p, f, a | p in ps ensures !ReportsField(o, p, f, a) {
      if f in p.0.fields {
        ByNumberFindsField(p.0.fields, f);
        var rules := o.fieldRules(f);
        if rules.Success? { NoDiffWithItself(o, rules.value); }
      }
    }
    assert forall a :: a !in w.annotations;
  }
}
