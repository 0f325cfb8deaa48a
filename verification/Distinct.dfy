/** Sequences without repetition, and the counting argument over them. */
module Distinct {

  ghost predicate NoRepeats<T(!new)>(s: seq<T>) {
    forall i, j :: 0 <= i < j < |s| ==> s[i] != s[j]
  }

  function Elements<T>(s: seq<T>): set<T> {
    set x | x in s
  }

  /** Every id is listed exactly once: neither list repeats and they hold the same ids. */
  ghost predicate ListsEachOnce<T(!new)>(refs: seq<T>, ids: seq<T>) {
    NoRepeats(ids) && NoRepeats(refs) && forall x :: x in refs <==> x in ids
  }

  lemma NoRepeatsAppend<T(!new)>(s: seq<T>, x: T)
    ensures NoRepeats(s + [x]) <==> NoRepeats(s) && x !in s
    ensures Elements(s + [x]) == Elements(s) + {x}
  {
    var all := s + [x];
    if NoRepeats(all) {
      forall i, j | 0 <= i < j < |s| ensures s[i] != s[j] {
        assert all[i] != all[j];
      }
      forall i | 0 <= i < |s| ensures s[i] != x {
        assert all[i] != all[|s|];
      }
    }
  }

  lemma NoRepeatsPrefix<T(!new)>(s: seq<T>, t: seq<T>)
    requires NoRepeats(s + t)
    ensures NoRepeats(s)
  {
    forall i, j | 0 <= i < j < |s| ensures s[i] != s[j] {
      assert (s + t)[i] != (s + t)[j];
    }
  }

  /** An element met before makes the whole sequence repeat. */
  lemma RepeatFound<T(!new)>(s: seq<T>, i: nat)
    requires i < |s| && s[i] in s[..i]
    ensures !NoRepeats(s)
  {
  }

  lemma {:induction false} ElementsCount<T(!new)>(s: seq<T>)
    ensures |Elements(s)| <= |s|
    ensures |Elements(s)| == |s| <==> NoRepeats(s)
  {
    if s == [] {
      assert Elements(s) == {};
    } else {
      var rest, x := s[..|s| - 1], s[|s| - 1];
      assert s == rest + [x];
      ElementsCount(rest);
      NoRepeatsAppend(rest, x);
    }
  }

  lemma SubsetOfEqualSize<T>(a: set<T>, b: set<T>)
    requires a <= b && |a| >= |b|
    ensures a == b
  {
    if a != b {
      var x :| x in b && x !in a;
      assert a <= b - {x};
      SubsetSize(a, b - {x});
    }
  }

  lemma {:induction false} SubsetSize<T>(a: set<T>, b: set<T>)
    requires a <= b
    ensures |a| <= |b|
    decreases a
  {
    if a != {} {
      var x :| x in a;
      SubsetSize(a - {x}, b - {x});
    }
  }

  /** Pigeonhole: distinct references into equally many ids leave no id out and no id double. */
  lemma Pigeonhole<T(!new)>(refs: seq<T>, ids: seq<T>)
    requires NoRepeats(refs) && (forall x :: x in refs ==> x in ids)
    requires |refs| == |ids|
    ensures ListsEachOnce(refs, ids)
  {
    ElementsCount(refs);
    ElementsCount(ids);
    SubsetSize(Elements(refs), Elements(ids));
    SubsetOfEqualSize(Elements(refs), Elements(ids));
    forall x | x in ids ensures x in refs {
      assert x in Elements(ids);
    }
  }

  lemma ListedOnceCounts<T(!new)>(refs: seq<T>, ids: seq<T>)
    requires ListsEachOnce(refs, ids)
    ensures |refs| == |ids| && |Elements(refs)| == |ids|
  {
    ElementsCount(refs);
    ElementsCount(ids);
    assert Elements(refs) == Elements(ids);
  }
}
