/** Sequences without repeats, the sets of their members, and counting. */
module Sequences {
  ghost function Members<T>(s: seq<T>): set<T> { set x | x in s }

  predicate NoRepeats<T(==)>(s: seq<T>) {
    s == [] || (s[|s| - 1] !in s[..|s| - 1] && NoRepeats(s[..|s| - 1]))
  }

  lemma {:induction false} NoRepeatsMeans<T>(s: seq<T>)
    ensures NoRepeats(s) <==> forall i, j :: 0 <= i < j < |s| ==> s[i] != s[j]
    ensures NoRepeats(s) ==> |Members(s)| == |s|
  {
    if s == [] {
      assert Members(s) == {};
    } else {
      var init := s[..|s| - 1];
      NoRepeatsMeans(init);
      assert Members(s) == Members(init) + {s[|s| - 1]};
    }
  }

  lemma NoRepeatsCount<T>(s: seq<T>)
    requires NoRepeats(s)
    ensures |Members(s)| == |s|
  {
    NoRepeatsMeans(s);
  }

  lemma {:induction false} NoRepeatsPrefix<T>(s: seq<T>, n: nat)
    requires NoRepeats(s) && n <= |s|
    ensures NoRepeats(s[..n])
  {
    if n == |s| {
      assert s[..n] == s;
    } else {
      var init := s[..|s| - 1];
      NoRepeatsPrefix(init, n);
      assert init[..n] == s[..n];
    }
  }

  lemma NextIsNew<T>(s: seq<T>, i: nat)
    requires NoRepeats(s) && i < |s|
    ensures s[i] !in Members(s[..i]) && Members(s[..i + 1]) == Members(s[..i]) + {s[i]}
  {
    NoRepeatsPrefix(s, i + 1);
    var front := s[..i + 1];
    assert front[..|front| - 1] == s[..i];
    assert front == s[..i] + [s[i]];
  }

  lemma AppendNew<T>(s: seq<T>, x: T)
    requires NoRepeats(s) && x !in Members(s)
    ensures NoRepeats(s + [x]) && Members(s + [x]) == Members(s) + {x}
  {
    assert (s + [x])[..|s|] == s;
  }

  /** Listing one more member of a set of which `rest` is still to be listed. */
  lemma ListNext<T>(s: seq<T>, all: set<T>, rest: set<T>, x: T)
    requires NoRepeats(s) && Members(s) == all - rest && rest <= all && x in rest
    ensures NoRepeats(s + [x]) && Members(s + [x]) == all - (rest - {x})
  {
    AppendNew(s, x);
  }

  lemma {:induction false} MembersSize<T>(s: seq<T>)
    ensures |Members(s)| <= |s|
  {
    if s == [] {
      assert Members(s) == {};
    } else {
      MembersSize(s[..|s| - 1]);
      assert Members(s) == Members(s[..|s| - 1]) + {s[|s| - 1]};
    }
  }

  lemma SubsetSize<T>(a: set<T>, b: set<T>)
    requires a <= b
    ensures |a| <= |b|
  {
    assert b == a + (b - a);
  }

  /** Members of a sequence without repeats are as many as there can be when all are in, and some when one is. */
  lemma AllOrSome<T>(s: seq<T>, a: set<T>)
    requires NoRepeats(s) && a <= Members(s)
    ensures |a| >= |s| <==> forall i :: 0 <= i < |s| ==> s[i] in a
    ensures |a| >= 1 <==> exists i :: 0 <= i < |s| && s[i] in a
  {
    NoRepeatsMeans(s);
    if i :| 0 <= i < |s| && s[i] !in a {
      SubsetSize(a, Members(s) - {s[i]});
    } else {
      assert a == Members(s);
    }
    if x :| x in a {
      SubsetSize({x}, a);
    }
  }

  /** Two subsets too large to be apart share a member. */
  lemma Pigeonhole<T>(a: set<T>, b: set<T>, all: set<T>, size: int) returns (x: T)
    requires a <= all && b <= all && |all| <= size < |a| + |b|
    ensures x in a && x in b
  {
    if a * b == {} {
      assert |a + b| == |a| + |b|;
      SubsetSize(a + b, all);
    }
    x :| x in a * b;
  }
}
