/**
 * Properties of running comparison steps one after another with the Go
 * code's early `return err`: what a sequence of runs appends, where it
 * stops, and when it is silent.
 */
module RunProperties {
  import opened Wrappers
  import opened Walk

  lemma ThenAssociative<E>(a: Run<E>, b: Run<E>, c: Run<E>)
    ensures Then(Then(a, b), c) == Then(a, Then(b, c))
  {
  }

  /** Running rs1 + rs2 runs rs1 first, then (if nothing failed) rs2. */
  lemma {:induction false} SequenceAppend<E>(rs1: seq<Run<E>>, rs2: seq<Run<E>>)
    ensures Sequence(rs1 + rs2) == Then(Sequence(rs1), Sequence(rs2))
  {
    if rs1 == [] {
      assert rs1 + rs2 == rs2;
    } else {
      assert (rs1 + rs2)[0] == rs1[0];
      assert (rs1 + rs2)[1..] == rs1[1..] + rs2;
      SequenceAppend(rs1[1..], rs2);
      ThenAssociative(rs1[0], Sequence(rs1[1..]), Sequence(rs2));
    }
  }

  /** Every annotation of a sequence of runs was appended by one of them. */
  lemma {:induction false} SequenceSound<E>(rs: seq<Run<E>>)
    ensures forall a :: a in Sequence(rs).annotations ==> exists k :: 0 <= k < |rs| && a in rs[k].annotations
  {
    if rs != [] {
      SequenceSound(rs[1..]);
      forall a | a in Sequence(rs[1..]).annotations ensures exists k :: 0 <= k < |rs| && a in rs[k].annotations {
        var k :| 0 <= k < |rs[1..]| && a in rs[1..][k].annotations;
        assert rs[k + 1] == rs[1..][k];
      }
    }
  }

  /** A sequence of runs that ends normally ran each of them normally and kept all their annotations. */
  lemma {:induction false} SequenceComplete<E>(rs: seq<Run<E>>)
    requires Sequence(rs).error.None?
    ensures forall k :: 0 <= k < |rs| ==> rs[k].error.None?
    ensures forall k, a :: 0 <= k < |rs| && a in rs[k].annotations ==> a in Sequence(rs).annotations
  {
    if rs != [] {
      SequenceComplete(rs[1..]);
      forall k | 0 < k < |rs| ensures rs[k] == rs[1..][k - 1] { }
    }
  }

  /**
   * The sequence stopped at run k: the runs before k succeeded, run k failed
   * with the sequence's error, and the annotations are those of the runs
   * before k followed by those run k appended before failing.
   */
  ghost predicate StoppedAt<E>(rs: seq<Run<E>>, k: nat)
  {
    && k < |rs|
    && Sequence(rs[..k]).error.None?
    && rs[k].error.Some?
    && rs[k].error == Sequence(rs).error
    && Sequence(rs).annotations == Sequence(rs[..k]).annotations + rs[k].annotations
  }

  /** A failing sequence stopped at its first failing run; nothing after it contributed. */
  lemma {:induction false} SequenceFailFast<E>(rs: seq<Run<E>>)
    requires Sequence(rs).error.Some?
    ensures exists k: nat :: StoppedAt(rs, k)
  {
    if rs[0].error.Some? {
      assert rs[..0] == [];
      assert StoppedAt(rs, 0);
    } else {
      var tail := rs[1..];
      SequenceFailFast(tail);
      var k: nat :| StoppedAt(tail, k);
      assert rs[..k + 1] == [rs[0]] + tail[..k];
      SequenceAppend([rs[0]], tail[..k]);
      assert [rs[0]][1..] == [];
      assert rs[k + 1] == tail[k];
      assert StoppedAt(rs, k + 1);
    }
  }

  /** When no run appends anything or fails, neither does the sequence. */
  lemma {:induction false} SequenceSilent<E>(rs: seq<Run<E>>)
    requires forall k :: 0 <= k < |rs| ==> rs[k] == Done()
    ensures Sequence(rs) == Done()
  {
    if rs != [] {
      forall k | 0 <= k < |rs[1..]| ensures rs[1..][k] == Done() { assert rs[1..][k] == rs[k + 1]; }
      SequenceSilent(rs[1..]);
    }
  }
}
