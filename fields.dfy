/** What compareProtovalidateFieldRules promises, proved of its specification. */
module FieldProperties {
  import opened Wrappers
  import opened Descriptors
  import opened Walk

  /** The field's resolved rules differ from those of its against counterpart. */
  predicate FieldChanged<R, E>(o: Resolver<R, E>, f: Field, af: Field)
  {
    Changed(o, o.fieldRules(f), o.fieldRules(af))
  }

  /** The against field that shares f's number, if any. */
  function Partner(f: Field, againstFields: seq<Field>): Option<Field>
  {
    ByNumber(againstFields, f.number)
  }

  /** One rule check annotates exactly when both sides resolve and they differ; it fails with the first failure. */
  lemma RulesCheckAnnotatesIffChanged<R, E>(o: Resolver<R, E>, current: Result<R, E>, against: Result<R, E>, a: Annotation)
    ensures RulesCheck(o, current, against, a).annotations == if Changed(o, current, against) then [a] else []
    ensures RulesCheck(o, current, against, a).error ==
              if current.Failure? then Some(current.error)
              else if against.Failure? then Some(against.error)
              else None
  {
  }

  /** Comparing fs1 + fs2 compares fs1 first, then (if nothing failed) fs2. */
  lemma {:induction false} FieldsWalkAppend<R, E>(o: Resolver<R, E>, fs1: seq<Field>, fs2: seq<Field>, afs: seq<Field>)
    ensures FieldsWalk(o, fs1 + fs2, afs) == Then(FieldsWalk(o, fs1, afs), FieldsWalk(o, fs2, afs))
  {
    if fs1 == [] {
      assert fs1 + fs2 == fs2;
    } else {
      assert (fs1 + fs2)[0] == fs1[0];
      assert (fs1 + fs2)[1..] == fs1[1..] + fs2;
      FieldsWalkAppend(o, fs1[1..], fs2, afs);
    }
  }

  /** The walk over fs[..i + 1] is the walk over fs[..i] followed by field i. */
  lemma FieldsWalkStep<R, E>(o: Resolver<R, E>, fs: seq<Field>, i: nat, afs: seq<Field>)
    requires i < |fs|
    ensures FieldsWalk(o, fs[..i + 1], afs) == Then(FieldsWalk(o, fs[..i], afs), FieldEntry(o, fs[i], afs))
  {
    assert fs[..i + 1] == fs[..i] + [fs[i]];
    FieldsWalkAppend(o, fs[..i], [fs[i]], afs);
    assert [fs[i]][1..] == [];
  }

  /** Once field i fails, the walk over the whole list ends with that failure; later fields are not compared. */
  lemma FieldsWalkStopsAt<R, E>(o: Resolver<R, E>, fs: seq<Field>, i: nat, afs: seq<Field>)
    requires i < |fs|
    requires FieldsWalk(o, fs[..i], afs).error.None? && FieldEntry(o, fs[i], afs).error.Some?
    ensures FieldsWalk(o, fs, afs).annotations ==
              FieldsWalk(o, fs[..i], afs).annotations + FieldEntry(o, fs[i], afs).annotations
    ensures FieldsWalk(o, fs, afs).error == FieldEntry(o, fs[i], afs).error
  {
    FieldsWalkStep(o, fs, i, afs);
    assert fs[..i + 1] + fs[i + 1..] == fs;
    FieldsWalkAppend(o, fs[..i + 1], fs[i + 1..], afs);
  }

  /** Every annotation is a field-rules annotation for a current field, its same-numbered partner, and changed rules. */
  lemma {:induction false} FieldsWalkSound<R, E>(o: Resolver<R, E>, fs: seq<Field>, afs: seq<Field>)
    ensures forall a :: a in FieldsWalk(o, fs, afs).annotations ==>
              exists f :: f in fs && Partner(f, afs).Some? && FieldChanged(o, f, Partner(f, afs).value)
                          && a == FieldAnnotation(f, Partner(f, afs).value)
  {
    if fs != [] {
      FieldsWalkSound(o, fs[1..], afs);
      var f := fs[0];
      match Partner(f, afs)
      case None =>
      case Some(af) =>
        RulesCheckAnnotatesIffChanged(o, o.fieldRules(f), o.fieldRules(af), FieldAnnotation(f, af));
      assert forall g :: g in fs[1..] ==> g in fs;
    }
  }

  /** Every annotation the field walk appends is a field-rules annotation. */
  lemma FieldsWalkKinds<R, E>(o: Resolver<R, E>, fs: seq<Field>, afs: seq<Field>)
    ensures forall a :: a in FieldsWalk(o, fs, afs).annotations ==> a.kind == FieldRulesChanged
  {
    FieldsWalkSound(o, fs, afs);
  }

  /**
   * A walk that ends normally resolved both sides of every paired field and
   * annotated every paired field whose rules changed.
   */
  lemma {:induction false} FieldsWalkComplete<R, E>(o: Resolver<R, E>, fs: seq<Field>, afs: seq<Field>)
    requires FieldsWalk(o, fs, afs).error.None?
    ensures forall f :: f in fs && Partner(f, afs).Some? ==>
              && o.fieldRules(f).Success? && o.fieldRules(Partner(f, afs).value).Success?
              && (FieldChanged(o, f, Partner(f, afs).value) ==>
                    FieldAnnotation(f, Partner(f, afs).value) in FieldsWalk(o, fs, afs).annotations)
  {
    if fs != [] {
      var f := fs[0];
      var w := FieldsWalk(o, fs, afs);
      var head := FieldEntry(o, f, afs);
      assert head.error.None?;
      FieldsWalkComplete(o, fs[1..], afs);
      if Partner(f, afs).Some? {
        var af := Partner(f, afs).value;
        RulesCheckAnnotatesIffChanged(o, o.fieldRules(f), o.fieldRules(af), FieldAnnotation(f, af));
      }
      assert forall g :: g in fs ==> g == fs[0] || g in fs[1..];
    }
  }

  /** Field f has a partner and one of the two rule resolutions fails. */
  predicate ResolutionFails<R, E>(o: Resolver<R, E>, f: Field, afs: seq<Field>)
  {
    Partner(f, afs).Some? && (o.fieldRules(f).Failure? || o.fieldRules(Partner(f, afs).value).Failure?)
  }

  /**
   * The walk over fs stopped at field i: everything before i succeeded, field
   * i failed to resolve with the walk's error, and only the annotations of
   * the fields before i were appended.
   */
  ghost predicate FieldsStoppedAt<R, E>(o: Resolver<R, E>, fs: seq<Field>, afs: seq<Field>, i: nat)
  {
    && i < |fs|
    && ResolutionFails(o, fs[i], afs)
    && FieldsWalk(o, fs[..i], afs).error.None?
    && FieldEntry(o, fs[i], afs).error == FieldsWalk(o, fs, afs).error
    && FieldsWalk(o, fs, afs).annotations == FieldsWalk(o, fs[..i], afs).annotations
  }

  /** A field entry fails exactly when the field is paired and a resolution fails; it then appends nothing. */
  lemma FieldEntryFails<R, E>(o: Resolver<R, E>, f: Field, afs: seq<Field>)
    ensures FieldEntry(o, f, afs).error.Some? <==> ResolutionFails(o, f, afs)
    ensures FieldEntry(o, f, afs).error.Some? ==> FieldEntry(o, f, afs).annotations == []
  {
    if Partner(f, afs).Some? {
      var af := Partner(f, afs).value;
      RulesCheckAnnotatesIffChanged(o, o.fieldRules(f), o.fieldRules(af), FieldAnnotation(f, af));
    }
  }

  /** Fail-fast: a failing walk stopped at the first paired field whose rules did not resolve. */
  lemma {:induction false} FieldsWalkFailFast<R, E>(o: Resolver<R, E>, fs: seq<Field>, afs: seq<Field>)
    requires FieldsWalk(o, fs, afs).error.Some?
    ensures exists i: nat :: FieldsStoppedAt(o, fs, afs, i)
  {
    FieldEntryFails(o, fs[0], afs);
    if FieldEntry(o, fs[0], afs).error.Some? {
      assert fs[..0] == [];
      assert FieldsStoppedAt(o, fs, afs, 0);
    } else {
      FieldsWalkFailFast(o, fs[1..], afs);
      var i: nat :| FieldsStoppedAt(o, fs[1..], afs, i);
      assert fs[..i + 1] == [fs[0]] + fs[1..][..i];
      FieldsWalkAppend(o, [fs[0]], fs[1..][..i], afs);
      assert [fs[0]][1..] == [];
      assert fs[i + 1] == fs[1..][i];
      assert FieldsStoppedAt(o, fs, afs, i + 1);
    }
  }

  /** With distinct field numbers, no two annotations are attached to the same field. */
  lemma {:induction false} FieldsWalkAtMostOnce<R, E>(o: Resolver<R, E>, fs: seq<Field>, afs: seq<Field>)
    requires UniqueNumbers(fs)
    ensures forall i, j :: 0 <= i < j < |FieldsWalk(o, fs, afs).annotations| ==>
              FieldsWalk(o, fs, afs).annotations[i].descriptor != FieldsWalk(o, fs, afs).annotations[j].descriptor
  {
    if fs != [] {
      var rest := FieldsWalk(o, fs[1..], afs);
      var head := FieldEntry(o, fs[0], afs);
      assert UniqueNumbers(fs[1..]) by {
        forall i, j | 0 <= i < j < |fs[1..]| ensures fs[1..][i].number != fs[1..][j].number {
          assert fs[1..][i] == fs[i + 1] && fs[1..][j] == fs[j + 1];
        }
      }
      FieldsWalkAtMostOnce(o, fs[1..], afs);
      FieldsWalkSound(o, fs[1..], afs);
      assert fs[0] !in fs[1..] by {
        forall k | 0 <= k < |fs[1..]| ensures fs[1..][k] != fs[0] {
          assert fs[1..][k] == fs[k + 1];
        }
      }
      if Partner(fs[0], afs).Some? {
        var af := Partner(fs[0], afs).value;
        RulesCheckAnnotatesIffChanged(o, o.fieldRules(fs[0]), o.fieldRules(af), FieldAnnotation(fs[0], af));
      }
      assert |head.annotations| <= 1;
      assert forall a :: a in head.annotations ==> a.descriptor == FieldDescriptor(fs[0]);
      assert forall a :: a in rest.annotations ==> a.descriptor != FieldDescriptor(fs[0]);
    }
  }

  /** When every paired field resolves to equal rules on both sides, the walk is silent and succeeds. */
  lemma {:induction false} FieldsWalkSilent<R, E>(o: Resolver<R, E>, fs: seq<Field>, afs: seq<Field>)
    requires forall f :: f in fs && Partner(f, afs).Some? ==>
               Unchanged(o, o.fieldRules(f), o.fieldRules(Partner(f, afs).value))
    ensures FieldsWalk(o, fs, afs) == Done()
  {
    if fs != [] {
      assert forall g :: g in fs[1..] ==> g in fs;
      FieldsWalkSilent(o, fs[1..], afs);
      if Partner(fs[0], afs).Some? {
        var af := Partner(fs[0], afs).value;
        RulesCheckAnnotatesIffChanged(o, o.fieldRules(fs[0]), o.fieldRules(af), FieldAnnotation(fs[0], af));
      }
    }
  }

  /** The against fields are consulted only through lookup by number, never by position. */
  lemma {:induction false} FieldsWalkByNumberOnly<R, E>(o: Resolver<R, E>, fs: seq<Field>, afs: seq<Field>, afs': seq<Field>)
    requires forall n :: ByNumber(afs, n) == ByNumber(afs', n)
    ensures FieldsWalk(o, fs, afs) == FieldsWalk(o, fs, afs')
  {
    if fs != [] {
      FieldsWalkByNumberOnly(o, fs[1..], afs, afs');
      assert ByNumber(afs, fs[0].number) == ByNumber(afs', fs[0].number);
    }
  }
}
