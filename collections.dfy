/** Facts about sequences used as lists without repeated elements. */
module Collections {

  /** No element occurs twice in `s`. */
  predicate NoDup<T(==)>(s: seq<T>) {
    forall i, j :: 0 <= i < j < |s| ==> s[i] != s[j]
  }

  /** The set of elements of `s`. */
  function Support<T>(s: seq<T>): set<T> {
    set x | x in s
  }

  /** A list without repeated elements has as many elements as its set. */
  lemma {:induction false} NoDupCard<T>(s: seq<T>)
    requires NoDup(s)
    ensures |Support(s)| == |s|
  {
    if s != [] {
      assert NoDup(s[1..]) by {
        forall i, j | 0 <= i < j < |s[1..]| ensures s[1..][i] != s[1..][j] {
          assert s[1..][i] == s[i + 1] && s[1..][j] == s[j + 1];
        }
      }
      NoDupCard(s[1..]);
      assert s[0] !in Support(s[1..]);
      assert Support(s) == {s[0]} + Support(s[1..]);
    }
  }

  /** Appending a new element keeps a list free of repeats and adds it to the set. */
  lemma NoDupSnoc<T>(s: seq<T>, x: T)
    requires NoDup(s) && x !in s
    ensures NoDup(s + [x]) && Support(s + [x]) == Support(s) + {x}
  {
    forall i, j | 0 <= i < j < |s + [x]| ensures (s + [x])[i] != (s + [x])[j] {
      if j == |s| {
        assert (s + [x])[i] == s[i];
      }
    }
  }

  /** `s` lists each element of `xs` exactly once: what `list(xs)` gives for a set. */
  predicate Enumerates<T(==)>(s: seq<T>, xs: set<T>) {
    NoDup(s) && Support(s) == xs
  }

  /** Two listings of the same set are permutations of each other. */
  lemma {:induction false} EnumerationsArePermutations<T>(s: seq<T>, t: seq<T>, xs: set<T>)
    requires Enumerates(s, xs) && Enumerates(t, xs)
    ensures multiset(s) == multiset(t)
  {
    forall x ensures multiset(s)[x] == multiset(t)[x] {
      NoDupMultiplicity(s, x);
      NoDupMultiplicity(t, x);
      assert x in s <==> x in Support(s);
      assert x in t <==> x in Support(t);
    }
  }

  /** In a list without repeated elements every element occurs once. */
  lemma {:induction false} NoDupMultiplicity<T>(s: seq<T>, x: T)
    requires NoDup(s)
    ensures multiset(s)[x] == if x in s then 1 else 0
  {
    if s != [] {
      assert s == [s[0]] + s[1..];
      assert NoDup(s[1..]) by {
        forall i, j | 0 <= i < j < |s[1..]| ensures s[1..][i] != s[1..][j] {
          assert s[1..][i] == s[i + 1] && s[1..][j] == s[j + 1];
        }
      }
      NoDupMultiplicity(s[1..], x);
      assert s[0] !in s[1..];
    }
  }
}
