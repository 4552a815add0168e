/**
 * Once per entity across the whole walk: every annotation is attached to
 * its own current descriptor. Full names identify descriptors, so the proof
 * shows that the full names of the attached descriptors never repeat and
 * are all declared in the current tree.
 */
module AnnotationIdentity {
  import opened Wrappers
  import opened Descriptors
  import opened Walk

  /** The full name of the current descriptor an annotation is attached to. */
  function DescribedName(a: Annotation): string
  {
    match a.descriptor
    case MessageDescriptor(m) => m.fullName
    case FieldDescriptor(f) => f.fullName
  }

  function DescribedNames(anns: seq<Annotation>): seq<string>
  {
    seq(|anns|, k requires 0 <= k < |anns| => DescribedName(anns[k]))
  }

  /** The annotations of r are attached to descriptors with distinct full names, all drawn from scope. */
  ghost predicate NamesWithin<E>(r: Run<E>, scope: seq<string>)
  {
    && NoDuplicates(DescribedNames(r.annotations))
    && forall a :: a in r.annotations ==> DescribedName(a) in scope
  }

  /** Two parts drawing on disjoint scopes, each without repetition, sequence into a part without repetition. */
  lemma ThenNamesWithin<E>(first: Run<E>, second: Run<E>, s1: seq<string>, s2: seq<string>)
    requires NoDuplicates(s1 + s2)
    requires NamesWithin(first, s1) && NamesWithin(second, s2)
    ensures NamesWithin(Then(first, second), s1 + s2)
  {
    NoDuplicatesSplit(s1, s2);
    if first.error.None? {
      var a := first.annotations;
      var b := second.annotations;
      var names := DescribedNames(a + b);
      forall i, j | 0 <= i < j < |names| ensures names[i] != names[j] {
        if j < |a| {
          assert names[i] == DescribedNames(a)[i] && names[j] == DescribedNames(a)[j];
        } else if |a| <= i {
          assert names[i] == DescribedNames(b)[i - |a|] && names[j] == DescribedNames(b)[j - |a|];
        } else {
          assert (a + b)[i] in a && (a + b)[j] in b;
        }
      }
    }
  }

  /** A rules check appends at most the one annotation it is given. */
  lemma RulesCheckNamesWithin<R, E>(o: Resolver<R, E>, current: Result<R, E>, against: Result<R, E>, a: Annotation)
    ensures NamesWithin(RulesCheck(o, current, against, a), [DescribedName(a)])
  {
  }

  /** The field walk annotates each field at most once, and only fields of fs. */
  lemma {:induction false} FieldsWalkNamesWithin<R, E>(o: Resolver<R, E>, fs: seq<Field>, afs: seq<Field>)
    requires NoDuplicates(FieldNames(fs))
    ensures NamesWithin(FieldsWalk(o, fs, afs), FieldNames(fs))
  {
    if fs != [] {
      var f := fs[0];
      assert FieldNames(fs) == [f.fullName] + FieldNames(fs[1..]);
      NoDuplicatesSplit([f.fullName], FieldNames(fs[1..]));
      if ByNumber(afs, f.number).Some? {
        var af := ByNumber(afs, f.number).value;
        RulesCheckNamesWithin(o, o.fieldRules(f), o.fieldRules(af), FieldAnnotation(f, af));
      }
      FieldsWalkNamesWithin(o, fs[1..], afs);
      ThenNamesWithin(FieldEntry(o, f, afs), FieldsWalk(o, fs[1..], afs), [f.fullName], FieldNames(fs[1..]));
    }
  }

  /** The walk over ms annotates each descriptor of the tree at most once, and only descriptors of the tree. */
  lemma {:induction false} MessagesWalkNamesWithin<R, E>(o: Resolver<R, E>, ms: seq<Message>, ams: seq<Message>)
    requires NoDuplicates(TreeNames(ms))
    ensures NamesWithin(MessagesWalk(o, ms, ams), TreeNames(ms))
    decreases ms
  {
    if ms != [] {
      NoDuplicatesSplit(SubtreeNames(ms[0]), TreeNames(ms[1..]));
      MessageEntryNamesWithin(o, ms[0], ams);
      MessagesWalkNamesWithin(o, ms[1..], ams);
      ThenNamesWithin(MessageEntry(o, ms[0], ams), MessagesWalk(o, ms[1..], ams), SubtreeNames(ms[0]), TreeNames(ms[1..]));
    }
  }

  /** One message's comparison, nested messages included, stays within the names that message declares. */
  lemma {:induction false} MessageEntryNamesWithin<R, E>(o: Resolver<R, E>, m: Message, ams: seq<Message>)
    requires NoDuplicates(SubtreeNames(m))
    ensures NamesWithin(MessageEntry(o, m, ams), SubtreeNames(m))
    decreases m
  {
    match ByName(ams, m.name)
    case None =>
    case Some(am) =>
      var own := [m.fullName] + FieldNames(m.fields);
      NoDuplicatesSplit(own, TreeNames(m.nested));
      NoDuplicatesSplit([m.fullName], FieldNames(m.fields));
      RulesCheckNamesWithin(o, o.messageRules(m), o.messageRules(am), MessageAnnotation(m, am));
      FieldsWalkNamesWithin(o, m.fields, am.fields);
      ThenNamesWithin(RulesCheck(o, o.messageRules(m), o.messageRules(am), MessageAnnotation(m, am)),
                      FieldsWalk(o, m.fields, am.fields), [m.fullName], FieldNames(m.fields));
      MessagesWalkNamesWithin(o, m.nested, am.nested);
      ThenNamesWithin(PairCheck(o, m, am), MessagesWalk(o, m.nested, am.nested), own, TreeNames(m.nested));
  }

  /**
   * Across the whole walk, at every depth, no two annotations are attached
   * to the same current descriptor, provided full names are distinct across
   * the current tree: each paired message and each paired field is reported
   * at most once.
   */
  lemma WalkAnnotatesEachDescriptorOnce<R, E>(o: Resolver<R, E>, ms: seq<Message>, ams: seq<Message>)
    requires DistinctFullNames(ms)
    ensures forall i, j :: 0 <= i < j < |MessagesWalk(o, ms, ams).annotations| ==>
              MessagesWalk(o, ms, ams).annotations[i].descriptor != MessagesWalk(o, ms, ams).annotations[j].descriptor
  {
    var anns := MessagesWalk(o, ms, ams).annotations;
    MessagesWalkNamesWithin(o, ms, ams);
    forall i, j | 0 <= i < j < |anns| ensures anns[i].descriptor != anns[j].descriptor {
      assert DescribedNames(anns)[i] != DescribedNames(anns)[j];
    }
  }
}
