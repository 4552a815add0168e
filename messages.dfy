/** What compareProtovalidateMessageRules and compareProtovalidateRules promise, proved of their specification. */
module MessageProperties {
  import opened Wrappers
  import opened Descriptors
  import opened Walk
  import opened FieldProperties
  import RunProperties

  /** The message's resolved rules differ from those of its against counterpart. */
  predicate MessageChanged<R, E>(o: Resolver<R, E>, m: Message, am: Message)
  {
    Changed(o, o.messageRules(m), o.messageRules(am))
  }

  /**
   * compareProtovalidateMessageRules: resolving either side's message rules
   * fails before anything is appended and before any field is looked at;
   * otherwise the message-rule annotation (if the rules changed) comes first
   * and the field comparison always follows it.
   */
  lemma PairCheckOrder<R, E>(o: Resolver<R, E>, m: Message, am: Message)
    ensures o.messageRules(m).Failure? ==> PairCheck(o, m, am) == Fail(o.messageRules(m).error)
    ensures o.messageRules(m).Success? && o.messageRules(am).Failure? ==>
              PairCheck(o, m, am) == Fail(o.messageRules(am).error)
    ensures o.messageRules(m).Success? && o.messageRules(am).Success? ==>
              && PairCheck(o, m, am).annotations ==
                   (if MessageChanged(o, m, am) then [MessageAnnotation(m, am)] else [])
                   + FieldsWalk(o, m.fields, am.fields).annotations
              && PairCheck(o, m, am).error == FieldsWalk(o, m.fields, am.fields).error
  {
    RulesCheckAnnotatesIffChanged(o, o.messageRules(m), o.messageRules(am), MessageAnnotation(m, am));
  }

  /**
   * A paired message gets at most one message-rules annotation, the first
   * one, and it gets it exactly when its rules changed.
   */
  lemma PairCheckAtMostOneMessageAnnotation<R, E>(o: Resolver<R, E>, m: Message, am: Message)
    ensures forall k :: 0 < k < |PairCheck(o, m, am).annotations| ==>
              PairCheck(o, m, am).annotations[k].kind == FieldRulesChanged
    ensures (|PairCheck(o, m, am).annotations| > 0 && PairCheck(o, m, am).annotations[0].kind == MessageRulesChanged)
              <==> MessageChanged(o, m, am)
    ensures MessageChanged(o, m, am) ==> PairCheck(o, m, am).annotations[0] == MessageAnnotation(m, am)
  {
    PairCheckOrder(o, m, am);
    FieldsWalkKinds(o, m.fields, am.fields);
    var fa := FieldsWalk(o, m.fields, am.fields).annotations;
    if MessageChanged(o, m, am) {
      forall k | 0 < k < |PairCheck(o, m, am).annotations|
        ensures PairCheck(o, m, am).annotations[k].kind == FieldRulesChanged
      {
        assert PairCheck(o, m, am).annotations[k] == fa[k - 1];
      }
    } else if  o.messageRules(m).Success? && o.messageRules(am).Success? {
      assert PairCheck(o, m, am).annotations == fa;
      if |fa| > 0 { assert fa[0] in fa; }
    }
  }

  /** Comparing ms1 + ms2 compares ms1 first, then (if nothing failed) ms2. */
  lemma {:induction false} MessagesWalkAppend<R, E>(o: Resolver<R, E>, ms1: seq<Message>, ms2: seq<Message>, ams: seq<Message>)
    ensures MessagesWalk(o, ms1 + ms2, ams) == Then(MessagesWalk(o, ms1, ams), MessagesWalk(o, ms2, ams))
  {
    if ms1 == [] {
      assert ms1 + ms2 == ms2;
    } else {
      assert (ms1 + ms2)[0] == ms1[0];
      assert (ms1 + ms2)[1..] == ms1[1..] + ms2;
      MessagesWalkAppend(o, ms1[1..], ms2, ams);
    }
  }

  /** The walk over ms[..i + 1] is the walk over ms[..i] followed by message i. */
  lemma MessagesWalkStep<R, E>(o: Resolver<R, E>, ms: seq<Message>, i: nat, ams: seq<Message>)
    requires i < |ms|
    ensures MessagesWalk(o, ms[..i + 1], ams) == Then(MessagesWalk(o, ms[..i], ams), MessageEntry(o, ms[i], ams))
  {
    assert ms[..i + 1] == ms[..i] + [ms[i]];
    MessagesWalkAppend(o, ms[..i], [ms[i]], ams);
    assert [ms[i]][1..] == [];
  }

  /** While nothing has failed, the walk over ms[..i + 1] appends what ms[..i] did and then what message i does. */
  lemma MessagesWalkContinues<R, E>(o: Resolver<R, E>, ms: seq<Message>, i: nat, ams: seq<Message>)
    requires i < |ms| && MessagesWalk(o, ms[..i], ams).error.None?
    ensures MessagesWalk(o, ms[..i + 1], ams).annotations ==
              MessagesWalk(o, ms[..i], ams).annotations + MessageEntry(o, ms[i], ams).annotations
    ensures MessagesWalk(o, ms[..i + 1], ams).error == MessageEntry(o, ms[i], ams).error
  {
    MessagesWalkStep(o, ms, i, ams);
  }

  /** Once message i fails, the walk over the whole list ends with that failure; later messages are not compared. */
  lemma MessagesWalkStopsAt<R, E>(o: Resolver<R, E>, ms: seq<Message>, i: nat, ams: seq<Message>)
    requires i < |ms|
    requires MessagesWalk(o, ms[..i], ams).error.None? && MessageEntry(o, ms[i], ams).error.Some?
    ensures MessagesWalk(o, ms, ams).annotations ==
              MessagesWalk(o, ms[..i], ams).annotations + MessageEntry(o, ms[i], ams).annotations
    ensures MessagesWalk(o, ms, ams).error == MessageEntry(o, ms[i], ams).error
  {
    MessagesWalkStep(o, ms, i, ams);
    assert ms[..i + 1] + ms[i + 1..] == ms;
    MessagesWalkAppend(o, ms[..i + 1], ms[i + 1..], ams);
  }

  /**
   * One step of compareProtovalidateRules' loop: if the walk over ms[..i]
   * left the writer at base + its annotations and message i then appended
   * its own, the writer holds the walk over ms[..i + 1] (when message i
   * succeeded) or the outcome of the whole walk (when it failed).
   */
  lemma MessagesLoopStep<R, E>(o: Resolver<R, E>, ms: seq<Message>, i: nat, ams: seq<Message>,
                               base: seq<Annotation>, after: seq<Annotation>)
    requires i < |ms| && MessagesWalk(o, ms[..i], ams).error.None?
    requires after == base + MessagesWalk(o, ms[..i], ams).annotations + MessageEntry(o, ms[i], ams).annotations
    ensures MessageEntry(o, ms[i], ams).error.None? ==>
              MessagesWalk(o, ms[..i + 1], ams).error.None? && after == base + MessagesWalk(o, ms[..i + 1], ams).annotations
    ensures MessageEntry(o, ms[i], ams).error.Some? ==>
              MessagesWalk(o, ms, ams).error == MessageEntry(o, ms[i], ams).error
              && after == base + MessagesWalk(o, ms, ams).annotations
  {
    var prefix := MessagesWalk(o, ms[..i], ams).annotations;
    var entry := MessageEntry(o, ms[i], ams);
    assert after == base + (prefix + entry.annotations);
    if entry.error.Some? {
      MessagesWalkStopsAt(o, ms, i, ams);
    } else {
      MessagesWalkContinues(o, ms, i, ams);
    }
  }

  /**
   * A current message with no same-named against message is skipped
   * entirely: the walk is the same as if it were not declared at all.
   */
  lemma UnpairedMessageSkipped<R, E>(o: Resolver<R, E>, ms: seq<Message>, i: nat, ams: seq<Message>)
    requires i < |ms| && ByName(ams, ms[i].name).None?
    ensures MessagesWalk(o, ms, ams) == MessagesWalk(o, ms[..i] + ms[i + 1..], ams)
  {
    var tail := [ms[i]] + ms[i + 1..];
    assert ms == ms[..i] + tail;
    assert tail[0] == ms[i] && tail[1..] == ms[i + 1..];
    assert MessageEntry(o, ms[i], ams) == Done();
    assert MessagesWalk(o, tail, ams) == MessagesWalk(o, ms[i + 1..], ams);
    MessagesWalkAppend(o, ms[..i], tail, ams);
    MessagesWalkAppend(o, ms[..i], ms[i + 1..], ams);
  }

  /**
   * The against messages are consulted only through lookup by name, never
   * by position: two against lists that answer every name alike give the
   * same walk.
   */
  lemma {:induction false} MessagesWalkByNameOnly<R, E>(o: Resolver<R, E>, ms: seq<Message>, ams: seq<Message>, ams': seq<Message>)
    requires forall n :: ByName(ams, n) == ByName(ams', n)
    ensures MessagesWalk(o, ms, ams) == MessagesWalk(o, ms, ams')
  {
    if ms != [] {
      MessagesWalkByNameOnly(o, ms[1..], ams, ams');
      assert ByName(ams, ms[0].name) == ByName(ams', ms[0].name);
    }
  }

  /** Run k of the pair comparisons is the comparison of pair k. */
  lemma {:induction false} PairRunsAt<R, E>(o: Resolver<R, E>, ps: seq<(Message, Message)>, k: nat)
    requires k < |ps|
    ensures PairRuns(o, ps)[k] == PairCheck(o, ps[k].0, ps[k].1)
  {
    if k > 0 {
      PairRunsAt(o, ps[1..], k - 1);
    }
  }

  /** The pair comparisons of ps1 + ps2 are those of ps1 followed by those of ps2. */
  lemma {:induction false} PairRunsAppend<R, E>(o: Resolver<R, E>, ps1: seq<(Message, Message)>, ps2: seq<(Message, Message)>)
    ensures PairRuns(o, ps1 + ps2) == PairRuns(o, ps1) + PairRuns(o, ps2)
  {
    if ps1 == [] {
      assert ps1 + ps2 == ps2;
    } else {
      assert (ps1 + ps2)[0] == ps1[0];
      assert (ps1 + ps2)[1..] == ps1[1..] + ps2;
      PairRunsAppend(o, ps1[1..], ps2);
    }
  }

  /** Comparing the pairs ps1 + ps2 compares ps1 first, then (if nothing failed) ps2. */
  lemma FoldPairsAppend<R, E>(o: Resolver<R, E>, ps1: seq<(Message, Message)>, ps2: seq<(Message, Message)>)
    ensures FoldPairs(o, ps1 + ps2) == Then(FoldPairs(o, ps1), FoldPairs(o, ps2))
  {
    PairRunsAppend(o, ps1, ps2);
    RunProperties.SequenceAppend(PairRuns(o, ps1), PairRuns(o, ps2));
  }

  /** Comparing a pair and then the pairs ps. */
  lemma FoldPairsCons<R, E>(o: Resolver<R, E>, p: (Message, Message), ps: seq<(Message, Message)>)
    ensures FoldPairs(o, [p] + ps) == Then(PairCheck(o, p.0, p.1), FoldPairs(o, ps))
  {
    FoldPairsAppend(o, [p], ps);
    assert [p][1..] == [];
    assert PairRuns(o, [p]) == [PairCheck(o, p.0, p.1)];
    assert Sequence([PairCheck(o, p.0, p.1)]) == PairCheck(o, p.0, p.1) by {
      assert [PairCheck(o, p.0, p.1)][1..] == [];
    }
  }

  /**
   * The recursive walk is the flat comparison of all paired messages in
   * visiting order: the recursion reaches every pair at every depth, and
   * unpaired messages (with everything beneath them) contribute nothing.
   */
  lemma {:induction false} MessagesWalkIsFoldOfPairs<R, E>(o: Resolver<R, E>, ms: seq<Message>, ams: seq<Message>)
    ensures MessagesWalk(o, ms, ams) == FoldPairs(o, PairsOf(ms, ams))
    decreases ms
  {
    if ms != [] {
      var m := ms[0];
      MessagesWalkIsFoldOfPairs(o, ms[1..], ams);
      match ByName(ams, m.name)
      case None =>
        assert PairsOf(ms, ams) == PairsOf(ms[1..], ams);
      case Some(am) =>
        MessagesWalkIsFoldOfPairs(o, m.nested, am.nested);
        var head := [(m, am)] + PairsOf(m.nested, am.nested);
        FoldPairsCons(o, (m, am), PairsOf(m.nested, am.nested));
        FoldPairsAppend(o, head, PairsOf(ms[1..], ams));
    }
  }

  /** Every listed pair consists of a current message and the same-named against message. */
  lemma {:induction false} PairsMatchByName(ms: seq<Message>, ams: seq<Message>)
    ensures forall p :: p in PairsOf(ms, ams) ==> p.0.name == p.1.name
    decreases ms
  {
    if ms != [] {
      PairsMatchByName(ms[1..], ams);
      match ByName(ams, ms[0].name)
      case None =>
      case Some(am) => PairsMatchByName(ms[0].nested, am.nested);
    }
  }

  /** A top-level current message with a same-named against message is compared. */
  lemma {:induction false} TopLevelPairListed(ms: seq<Message>, ams: seq<Message>, i: nat)
    requires i < |ms| && ByName(ams, ms[i].name).Some?
    ensures (ms[i], ByName(ams, ms[i].name).value) in PairsOf(ms, ams)
    decreases ms
  {
    if i > 0 {
      TopLevelPairListed(ms[1..], ams, i - 1);
      assert ms[1..][i - 1] == ms[i];
    }
  }

  /**
   * Recursion to any depth: below a compared pair, every nested current
   * message with a same-named message among the against message's nested
   * messages is compared too.
   */
  lemma {:induction false} NestedPairListed(ms: seq<Message>, ams: seq<Message>, p: (Message, Message), n: Message)
    requires p in PairsOf(ms, ams) && n in p.0.nested && ByName(p.1.nested, n.name).Some?
    ensures (n, ByName(p.1.nested, n.name).value) in PairsOf(ms, ams)
    decreases ms
  {
    var m := ms[0];
    var rest := PairsOf(ms[1..], ams);
    if p in rest {
      NestedPairListed(ms[1..], ams, p, n);
    } else {
      var am := ByName(ams, m.name).value;
      var below := PairsOf(m.nested, am.nested);
      if p == (m, am) {
        var k :| 0 <= k < |m.nested| && m.nested[k] == n;
        TopLevelPairListed(m.nested, am.nested, k);
      } else {
        NestedPairListed(m.nested, am.nested, p, n);
      }
      assert PairsOf(ms, ams) == ([(m, am)] + below) + rest;
    }
  }

  /**
   * Nothing else is compared: every listed pair is a top-level pair by name,
   * or a pair by name among the nested messages of a listed pair.
   */
  lemma {:induction false} PairsOrigin(ms: seq<Message>, ams: seq<Message>)
    ensures forall p :: p in PairsOf(ms, ams) ==>
              || (p.0 in ms && ByName(ams, p.0.name) == Some(p.1))
              || exists q :: q in PairsOf(ms, ams) && p.0 in q.0.nested && ByName(q.1.nested, p.0.name) == Some(p.1)
    decreases ms
  {
    if ms != [] {
      var m := ms[0];
      var all := PairsOf(ms, ams);
      var rest := PairsOf(ms[1..], ams);
      PairsOrigin(ms[1..], ams);
      assert forall x :: x in ms[1..] ==> x in ms;
      match ByName(ams, m.name)
      case None =>
        assert all == rest;
      case Some(am) =>
        var below := PairsOf(m.nested, am.nested);
        PairsOrigin(m.nested, am.nested);
        assert all == ([(m, am)] + below) + rest;
        forall p | p in below
          ensures exists q :: q in all && p.0 in q.0.nested && ByName(q.1.nested, p.0.name) == Some(p.1)
        {
          if !(p.0 in m.nested && ByName(am.nested, p.0.name) == Some(p.1)) {
            var q :| q in below && p.0 in q.0.nested && ByName(q.1.nested, p.0.name) == Some(p.1);
            assert q in all;
          } else {
            assert (m, am) in all;
          }
        }
        forall p | p in rest && !(p.0 in ms && ByName(ams, p.0.name) == Some(p.1))
          ensures exists q :: q in all && p.0 in q.0.nested && ByName(q.1.nested, p.0.name) == Some(p.1)
        {
          var q :| q in rest && p.0 in q.0.nested && ByName(q.1.nested, p.0.name) == Some(p.1);
          assert q in all;
        }
    }
  }

  /** Every annotation of the flat comparison comes from one of the listed pairs. */
  lemma FoldPairsSound<R, E>(o: Resolver<R, E>, ps: seq<(Message, Message)>)
    ensures forall a :: a in FoldPairs(o, ps).annotations ==>
              exists p :: p in ps && a in PairCheck(o, p.0, p.1).annotations
  {
    var rs := PairRuns(o, ps);
    RunProperties.SequenceSound(rs);
    forall a | a in FoldPairs(o, ps).annotations ensures exists p :: p in ps && a in PairCheck(o, p.0, p.1).annotations {
      var k :| 0 <= k < |rs| && a in rs[k].annotations;
      PairRunsAt(o, ps, k);
      assert ps[k] in ps;
    }
  }

  /** A flat comparison that ends normally compared every listed pair without error and kept all their annotations. */
  lemma FoldPairsComplete<R, E>(o: Resolver<R, E>, ps: seq<(Message, Message)>)
    requires FoldPairs(o, ps).error.None?
    ensures forall p :: p in ps ==> PairCheck(o, p.0, p.1).error.None?
    ensures forall p, a :: p in ps && a in PairCheck(o, p.0, p.1).annotations ==> a in FoldPairs(o, ps).annotations
  {
    var rs := PairRuns(o, ps);
    RunProperties.SequenceComplete(rs);
    forall p | p in ps
      ensures PairCheck(o, p.0, p.1).error.None?
      ensures forall a :: a in PairCheck(o, p.0, p.1).annotations ==> a in FoldPairs(o, ps).annotations
    {
      var k :| 0 <= k < |ps| && ps[k] == p;
      PairRunsAt(o, ps, k);
    }
  }

  /**
   * The flat comparison stopped at pair k: the pairs before k succeeded,
   * pair k produced the error, and the annotations are those of the pairs
   * before k followed by those pair k appended before failing.
   */
  ghost predicate PairsStoppedAt<R, E>(o: Resolver<R, E>, ps: seq<(Message, Message)>, k: nat)
  {
    && k < |ps|
    && FoldPairs(o, ps[..k]).error.None?
    && PairCheck(o, ps[k].0, ps[k].1).error.Some?
    && PairCheck(o, ps[k].0, ps[k].1).error == FoldPairs(o, ps).error
    && FoldPairs(o, ps).annotations == FoldPairs(o, ps[..k]).annotations + PairCheck(o, ps[k].0, ps[k].1).annotations
  }

  /** Fail-fast over pairs: a failing comparison stopped at the first pair that failed, and nothing after it ran. */
  lemma FoldPairsFailFast<R, E>(o: Resolver<R, E>, ps: seq<(Message, Message)>)
    requires FoldPairs(o, ps).error.Some?
    ensures exists k: nat :: PairsStoppedAt(o, ps, k)
  {
    var rs := PairRuns(o, ps);
    RunProperties.SequenceFailFast(rs);
    var k: nat :| RunProperties.StoppedAt(rs, k);
    PairRunsAt(o, ps, k);
    assert ps == ps[..k] + ps[k..];
    PairRunsAppend(o, ps[..k], ps[k..]);
    assert PairRuns(o, ps[..k]) == rs[..k];
    assert PairsStoppedAt(o, ps, k);
  }

  /** When no listed pair appends anything or fails, the flat comparison is silent and succeeds. */
  lemma FoldPairsSilent<R, E>(o: Resolver<R, E>, ps: seq<(Message, Message)>)
    requires forall p :: p in ps ==> PairCheck(o, p.0, p.1) == Done()
    ensures FoldPairs(o, ps) == Done()
  {
    var rs := PairRuns(o, ps);
    forall k | 0 <= k < |rs| ensures rs[k] == Done() {
      PairRunsAt(o, ps, k);
      assert ps[k] in ps;
    }
    RunProperties.SequenceSilent(rs);
  }
}
