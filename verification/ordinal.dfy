/** Ordinal string order: strings compared character by character, a proper prefix
    sorting first. This stands in for the string comparer used by `OrderBy`. */
module Ordinal {

  predicate Leq(a: string, b: string)
    decreases |a|
  {
    || |a| == 0
    || (|b| > 0 && (a[0] < b[0] || (a[0] == b[0] && Leq(a[1..], b[1..]))))
  }

  /** Strictly before: `b` is not at or before `a`. */
  predicate Less(a: string, b: string) {
    !Leq(b, a)
  }

  predicate IsPrefix(a: string, b: string) {
    |a| <= |b| && a == b[..|a|]
  }

  /** `a` and `b` agree before position `i`, where `a` has the smaller character. */
  predicate DiffersAt(a: string, b: string, i: nat) {
    i < |a| && i < |b| && a[..i] == b[..i] && a[i] < b[i]
  }

  /** `a` and `b` agree up to some position where `a` has the smaller character. */
  predicate Differs(a: string, b: string) {
    exists i: nat :: i < |a| && DiffersAt(a, b, i)
  }

  lemma PrefixCons(a: string, b: string)
    requires |a| > 0 && |b| > 0
    ensures IsPrefix(a, b) <==> a[0] == b[0] && IsPrefix(a[1..], b[1..])
  {
    if IsPrefix(a, b) {
      assert a[0] == b[..|a|][0];
      assert a[1..] == b[..|a|][1..];
    }
    if a[0] == b[0] && IsPrefix(a[1..], b[1..]) {
      assert a == [a[0]] + a[1..];
      assert b[..|a|] == [b[0]] + b[1..][..|a| - 1];
    }
  }

  /** A difference past the first position is a difference of the tails, one position back. */
  lemma DiffersAtTail(a: string, b: string, i: nat)
    requires i > 0
    ensures DiffersAt(a, b, i) <==> |a| > 0 && |b| > 0 && a[0] == b[0] && DiffersAt(a[1..], b[1..], i - 1)
  {
    if DiffersAt(a, b, i) {
      assert a[0] == a[..i][0] && b[0] == b[..i][0];
      assert a[1..][..i - 1] == a[..i][1..];
      assert b[1..][..i - 1] == b[..i][1..];
    }
    if |a| > 0 && |b| > 0 && a[0] == b[0] && DiffersAt(a[1..], b[1..], i - 1) {
      assert a[..i] == [a[0]] + a[1..][..i - 1];
      assert b[..i] == [b[0]] + b[1..][..i - 1];
    }
  }

  lemma DiffersCons(a: string, b: string)
    requires |a| > 0 && |b| > 0
    ensures Differs(a, b) <==> a[0] < b[0] || (a[0] == b[0] && Differs(a[1..], b[1..]))
  {
    if Differs(a, b) {
      var i: nat :| DiffersAt(a, b, i);
      if i > 0 {
        DiffersAtTail(a, b, i);
      }
    }
    if a[0] < b[0] {
      assert DiffersAt(a, b, 0);
    }
    if a[0] == b[0] && Differs(a[1..], b[1..]) {
      var i: nat :| DiffersAt(a[1..], b[1..], i);
      DiffersAtTail(a, b, i + 1);
    }
  }

  /** `a` sorts at or before `b` exactly when `a` is a prefix of `b`, or the two agree up to
      some position where `a` has the smaller character. */
  lemma {:induction false} LeqMeaning(a: string, b: string)
    ensures Leq(a, b) <==> IsPrefix(a, b) || Differs(a, b)
    decreases |a|
  {
    if |a| > 0 && |b| > 0 {
      LeqMeaning(a[1..], b[1..]);
      PrefixCons(a, b);
      DiffersCons(a, b);
    }
  }

  lemma {:induction false} Reflexive(a: string)
    ensures Leq(a, a)
    decreases |a|
  {
    if |a| > 0 {
      Reflexive(a[1..]);
    }
  }

  lemma {:induction false} Antisymmetric(a: string, b: string)
    requires Leq(a, b) && Leq(b, a)
    ensures a == b
    decreases |a|
  {
    if |a| > 0 {
      Antisymmetric(a[1..], b[1..]);
      assert a == [a[0]] + a[1..];
      assert b == [b[0]] + b[1..];
    }
  }

  lemma {:induction false} Transitive(a: string, b: string, c: string)
    requires Leq(a, b) && Leq(b, c)
    ensures Leq(a, c)
    decreases |a|
  {
    if |a| > 0 && a[0] == b[0] && b[0] == c[0] {
      Transitive(a[1..], b[1..], c[1..]);
    }
  }

  lemma {:induction false} Total(a: string, b: string)
    ensures Leq(a, b) || Leq(b, a)
    decreases |a|
  {
    if |a| > 0 && |b| > 0 && a[0] == b[0] {
      Total(a[1..], b[1..]);
    }
  }
}
