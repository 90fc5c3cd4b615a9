/**
 * `groups_from_pairs` (frontend/price_per_unit/substitution_sets.py, lines
 * 245-274): the equivalence classes induced by a list of pairs.
 *
 * A class is specified without reference to the algorithm: the classes
 * partition the elements of the pairs, the two elements of every pair share a
 * class, and a class is connected, i.e. however it is cut into two non-empty
 * parts some pair joins the parts. `ClassesUnique` shows that this determines
 * the classes.
 */
module Groups {
  import opened Collections

  /** The elements occurring in `pairs`. */
  function Elements<T>(pairs: seq<(T, T)>): set<T>
    decreases |pairs|
  {
    if pairs == [] then {}
    else Elements(pairs[..|pairs| - 1]) + {pairs[|pairs| - 1].0, pairs[|pairs| - 1].1}
  }

  lemma ElementsSnoc<T>(pairs: seq<(T, T)>, n: nat)
    requires n < |pairs|
    ensures Elements(pairs[..n + 1]) == Elements(pairs[..n]) + {pairs[n].0, pairs[n].1}
  {
    assert pairs[..n + 1][..n] == pairs[..n];
  }

  /** An element is in `Elements(pairs)` exactly when it is one of the two sides of a pair. */
  lemma {:induction false} ElementsMembers<T>(pairs: seq<(T, T)>, x: T)
    ensures x in Elements(pairs) <==> exists j :: 0 <= j < |pairs| && (pairs[j].0 == x || pairs[j].1 == x)
  {
    if pairs != [] {
      var n := |pairs| - 1;
      var init := pairs[..n];
      ElementsMembers(init, x);
      if x in Elements(init) {
        var j :| 0 <= j < |init| && (init[j].0 == x || init[j].1 == x);
        assert pairs[j] == init[j];
      }
      if exists j :: 0 <= j < |pairs| && (pairs[j].0 == x || pairs[j].1 == x) {
        var j :| 0 <= j < |pairs| && (pairs[j].0 == x || pairs[j].1 == x);
        if j < n {
          assert init[j] == pairs[j];
        }
      }
    }
  }

  /** The pair `p` joins the part `S` of `B` to the rest of `B`. */
  predicate Joins<T>(p: (T, T), S: set<T>, B: set<T>) {
    (p.0 in S && p.1 in B - S) || (p.1 in S && p.0 in B - S)
  }

  /** Some pair joins the part `S` of `B` to the rest of `B`. */
  ghost predicate Crosses<T>(pairs: seq<(T, T)>, S: set<T>, B: set<T>) {
    exists j :: 0 <= j < |pairs| && Joins(pairs[j], S, B)
  }

  /** No way of cutting `B` into two non-empty parts leaves the parts unjoined by `pairs`. */
  ghost predicate Connected<T(!new)>(pairs: seq<(T, T)>, B: set<T>) {
    forall S {:trigger Crosses(pairs, S, B)} :: S < B && S != {} ==> Crosses(pairs, S, B)
  }

  /** The classes are non-empty lists without repetitions, each of them connected. */
  ghost predicate ClassesWellFormed<T(!new)>(pairs: seq<(T, T)>, classes: seq<seq<T>>) {
    forall t :: 0 <= t < |classes| ==>
      |classes[t]| > 0 && NoDup(classes[t]) && Connected(pairs, Support(classes[t]))
  }

  /** No element is in two classes. */
  ghost predicate Disjoint<T>(classes: seq<seq<T>>) {
    forall t, u :: 0 <= t < |classes| && 0 <= u < |classes| && t != u ==> Apart(classes[t], classes[u])
  }

  /** No element of `a` is in `b`. */
  ghost predicate Apart<T>(a: seq<T>, b: seq<T>) {
    forall x :: x in a ==> x !in b
  }

  /** `x` is in one of the classes. */
  ghost predicate Classified<T>(x: T, classes: seq<seq<T>>) {
    exists t :: 0 <= t < |classes| && x in classes[t]
  }

  /** The classes hold exactly the elements of the pairs. */
  ghost predicate Covers<T>(pairs: seq<(T, T)>, classes: seq<seq<T>>) {
    (forall x :: x in Elements(pairs) ==> Classified(x, classes)) &&
    (forall t, x :: 0 <= t < |classes| && x in classes[t] ==> x in Elements(pairs))
  }

  /** The two elements of `p` are in one of the classes. */
  ghost predicate InOneClass<T>(p: (T, T), classes: seq<seq<T>>) {
    exists t :: 0 <= t < |classes| && p.0 in classes[t] && p.1 in classes[t]
  }

  /** The two elements of every pair are in one class. */
  ghost predicate Together<T>(pairs: seq<(T, T)>, classes: seq<seq<T>>) {
    forall j :: 0 <= j < |pairs| ==> InOneClass(pairs[j], classes)
  }

  /** `classes` lists the equivalence classes of the relation `pairs` generates, once each. */
  ghost predicate EquivalenceClasses<T(!new)>(pairs: seq<(T, T)>, classes: seq<seq<T>>) {
    ClassesWellFormed(pairs, classes) && Disjoint(classes) && Covers(pairs, classes) && Together(pairs, classes)
  }

  lemma SingletonConnected<T(!new)>(pairs: seq<(T, T)>, x: T)
    ensures Connected(pairs, {x})
  {
  }

  /** Two connected, disjoint sets joined by a pair form a connected set. */
  lemma MergeConnected<T(!new)>(pairs: seq<(T, T)>, G: set<T>, H: set<T>, j: nat)
    requires j < |pairs| && pairs[j].0 in G && pairs[j].1 in H && G !! H
    requires Connected(pairs, G) && Connected(pairs, H)
    ensures Connected(pairs, G + H)
  {
    var a, b := pairs[j].0, pairs[j].1;
    forall S | S < G + H && S != {} ensures Crosses(pairs, S, G + H) {
      var SG, SH := S * G, S * H;
      assert S == SG + SH;
      if SG != {} && SG < G {
        assert Crosses(pairs, SG, G);
        var k :| 0 <= k < |pairs| && Joins(pairs[k], SG, G);
        assert Joins(pairs[k], S, G + H);
      } else if SH != {} && SH < H {
        assert Crosses(pairs, SH, H);
        var k :| 0 <= k < |pairs| && Joins(pairs[k], SH, H);
        assert Joins(pairs[k], S, G + H);
      } else if a in S {
        assert SG == G;
        assert b !in S;
        assert Joins(pairs[j], S, G + H);
      } else {
        assert SG == {};
        assert SH == H;
        assert Joins(pairs[j], S, G + H);
      }
    }
  }

  /**
   * A connected list `a` that shares an element with the class `B[u]` of a
   * partition keeping every pair together lies inside that class.
   */
  lemma ConnectedInsideClass<T(!new)>(pairs: seq<(T, T)>, a: seq<T>, B: seq<seq<T>>, u: nat, x: T)
    requires Connected(pairs, Support(a)) && Together(pairs, B) && Disjoint(B)
    requires u < |B| && x in a && x in B[u]
    ensures Support(a) <= Support(B[u])
  {
    var A, S := Support(a), Support(a) * Support(B[u]);
    assert x in S;
    forall j | 0 <= j < |pairs| ensures !Joins(pairs[j], S, A) {
      assert InOneClass(pairs[j], B);
      var w :| 0 <= w < |B| && pairs[j].0 in B[w] && pairs[j].1 in B[w];
      if pairs[j].0 in S || pairs[j].1 in S {
        assert !Apart(B[w], B[u]);
      }
    }
    assert !Crosses(pairs, S, A);
  }

  /** The specification fixes the classes: two results for the same pairs list the same sets. */
  lemma ClassesUnique<T(!new)>(pairs: seq<(T, T)>, A: seq<seq<T>>, B: seq<seq<T>>, t: nat)
    requires EquivalenceClasses(pairs, A) && EquivalenceClasses(pairs, B) && t < |A|
    ensures exists u :: 0 <= u < |B| && Support(A[t]) == Support(B[u])
  {
    var x := A[t][0];
    assert x in Elements(pairs);
    assert Classified(x, B);
    var u :| 0 <= u < |B| && x in B[u];
    ConnectedInsideClass(pairs, A[t], B, u, x);
    ConnectedInsideClass(pairs, B[u], A, t, x);
  }

  /**
   * `p` and `q` state the same relation: each pair of one is a pair of the
   * other, either way round, whatever the order and the repetitions.
   */
  ghost predicate SameRelation<T(!new)>(p: seq<(T, T)>, q: seq<(T, T)>) {
    forall x, y :: ((x, y) in p || (y, x) in p) <==> ((x, y) in q || (y, x) in q)
  }

  /** A pair of `p` is, one way round or the other, a pair of `q`. */
  lemma Counterpair<T(!new)>(p: seq<(T, T)>, q: seq<(T, T)>, j: nat) returns (k: nat)
    requires SameRelation(p, q) && j < |p|
    ensures k < |q| && (q[k] == p[j] || q[k] == (p[j].1, p[j].0))
  {
    assert (p[j].0, p[j].1) in p;
    if (p[j].0, p[j].1) in q {
      k :| 0 <= k < |q| && q[k] == (p[j].0, p[j].1);
    } else {
      k :| 0 <= k < |q| && q[k] == (p[j].1, p[j].0);
    }
  }

  /** Lists of pairs stating the same relation have the same elements. */
  lemma SameElements<T(!new)>(p: seq<(T, T)>, q: seq<(T, T)>)
    requires SameRelation(p, q)
    ensures Elements(p) == Elements(q)
  {
    forall x | x in Elements(p) ensures x in Elements(q) {
      ElementsMembers(p, x);
      var j :| 0 <= j < |p| && (p[j].0 == x || p[j].1 == x);
      var k := Counterpair(p, q, j);
      ElementsMembers(q, x);
    }
    forall x | x in Elements(q) ensures x in Elements(p) {
      ElementsMembers(q, x);
      var j :| 0 <= j < |q| && (q[j].0 == x || q[j].1 == x);
      var k := Counterpair(q, p, j);
      ElementsMembers(p, x);
    }
  }

  /** A cut crossed by a pair of `p` is crossed by a pair of `q`. */
  lemma SameCrossings<T(!new)>(p: seq<(T, T)>, q: seq<(T, T)>, S: set<T>, B: set<T>)
    requires SameRelation(p, q) && Crosses(p, S, B)
    ensures Crosses(q, S, B)
  {
    var j :| 0 <= j < |p| && Joins(p[j], S, B);
    var k := Counterpair(p, q, j);
    assert Joins(q[k], S, B);
  }

  /** Classes of `p` are classes of `q` when the two state the same relation. */
  lemma SameRelationClassesStep<T(!new)>(p: seq<(T, T)>, q: seq<(T, T)>, classes: seq<seq<T>>)
    requires SameRelation(p, q) && EquivalenceClasses(p, classes)
    ensures EquivalenceClasses(q, classes)
  {
    SameElements(p, q);
    forall t, S | 0 <= t < |classes| && S < Support(classes[t]) && S != {}
      ensures Crosses(q, S, Support(classes[t]))
    {
      assert Crosses(p, S, Support(classes[t]));
      SameCrossings(p, q, S, Support(classes[t]));
    }
    forall j | 0 <= j < |q| ensures InOneClass(q[j], classes) {
      var k := Counterpair(q, p, j);
      assert InOneClass(p[k], classes);
    }
  }

  /**
   * The classes depend only on the relation the pairs state: reordering the
   * pairs, turning some round or repeating them changes no class.
   */
  lemma SameRelationClasses<T(!new)>(p: seq<(T, T)>, q: seq<(T, T)>, classes: seq<seq<T>>)
    requires SameRelation(p, q)
    ensures EquivalenceClasses(p, classes) <==> EquivalenceClasses(q, classes)
  {
    if EquivalenceClasses(p, classes) {
      SameRelationClassesStep(p, q, classes);
    }
    if EquivalenceClasses(q, classes) {
      SameRelationClassesStep(q, p, classes);
    }
  }

  /** The example of lines 249-255: the pairs (1, 2), (3, 4), (5, 6), (1, 3). */
  const ExamplePairs: seq<(int, int)> := [(1, 2), (3, 4), (5, 6), (1, 3)]

  lemma ExampleElements()
    ensures Elements(ExamplePairs) == {1, 2, 3, 4, 5, 6}
  {
    var ps := ExamplePairs;
    assert ps[..0] == [] && ps[..4] == ps;
    ElementsSnoc(ps, 0); ElementsSnoc(ps, 1); ElementsSnoc(ps, 2); ElementsSnoc(ps, 3);
  }

  /** Both example groups are connected, by merging singletons along the pairs. */
  lemma ExampleConnected()
    ensures Connected(ExamplePairs, {1, 2, 3, 4}) && Connected(ExamplePairs, {5, 6})
  {
    var ps := ExamplePairs;
    SingletonConnected(ps, 1); SingletonConnected(ps, 2); SingletonConnected(ps, 3);
    SingletonConnected(ps, 4); SingletonConnected(ps, 5); SingletonConnected(ps, 6);
    MergeConnected(ps, {1}, {2}, 0);
    MergeConnected(ps, {3}, {4}, 1);
    MergeConnected(ps, {5}, {6}, 2);
    assert {1} + {2} == {1, 2} && {3} + {4} == {3, 4} && {5} + {6} == {5, 6};
    MergeConnected(ps, {1, 2}, {3, 4}, 3);
    assert {1, 2} + {3, 4} == {1, 2, 3, 4};
  }

  lemma ExampleWellFormed()
    ensures ClassesWellFormed(ExamplePairs, [[1, 2, 3, 4], [5, 6]])
  {
    var classes := [[1, 2, 3, 4], [5, 6]];
    ExampleConnected();
    assert Support(classes[0]) == {1, 2, 3, 4} && Support(classes[1]) == {5, 6};
  }

  lemma ExampleCovers()
    ensures Covers(ExamplePairs, [[1, 2, 3, 4], [5, 6]])
  {
    var classes := [[1, 2, 3, 4], [5, 6]];
    ExampleElements();
    forall x | x in Elements(ExamplePairs) ensures Classified(x, classes) {
      if x <= 4 {
        assert x in classes[0];
      } else {
        assert x in classes[1];
      }
    }
  }

  lemma ExampleTogether()
    ensures Together(ExamplePairs, [[1, 2, 3, 4], [5, 6]])
  {
    var ps, classes := ExamplePairs, [[1, 2, 3, 4], [5, 6]];
    forall j | 0 <= j < |ps| ensures InOneClass(ps[j], classes) {
      var t := if j == 2 then 1 else 0;
      assert ps[j].0 in classes[t] && ps[j].1 in classes[t];
    }
  }

  /** The groups of lines 249-255 are the equivalence classes of the example pairs. */
  lemma ExampleClasses()
    ensures EquivalenceClasses(ExamplePairs, [[1, 2, 3, 4], [5, 6]])
  {
    var classes := [[1, 2, 3, 4], [5, 6]];
    ExampleWellFormed();
    ExampleCovers();
    ExampleTogether();
    assert Apart(classes[0], classes[1]) && Apart(classes[1], classes[0]);
  }

  /** Whatever order the groups come in, the example pairs have exactly the two groups {1, 2, 3, 4} and {5, 6}. */
  lemma ExampleGroups(classes: seq<seq<int>>)
    requires EquivalenceClasses(ExamplePairs, classes)
    ensures forall t :: 0 <= t < |classes| ==> Support(classes[t]) == {1, 2, 3, 4} || Support(classes[t]) == {5, 6}
    ensures |classes| == 2
    ensures exists t :: 0 <= t < |classes| && Support(classes[t]) == {1, 2, 3, 4}
    ensures exists t :: 0 <= t < |classes| && Support(classes[t]) == {5, 6}
  {
    ExampleGroupSets(classes);
    ExampleElements();
    assert Covers(ExamplePairs, classes) && Disjoint(classes);
    assert 1 in Elements(ExamplePairs) && 5 in Elements(ExamplePairs);
    ExampleCount(classes);
  }

  /** Each class of the example pairs is {1, 2, 3, 4} or {5, 6}. */
  lemma ExampleGroupSets(classes: seq<seq<int>>)
    requires EquivalenceClasses(ExamplePairs, classes)
    ensures forall t :: 0 <= t < |classes| ==> Support(classes[t]) == {1, 2, 3, 4} || Support(classes[t]) == {5, 6}
  {
    var reference := [[1, 2, 3, 4], [5, 6]];
    ExampleClasses();
    forall t | 0 <= t < |classes| ensures Support(classes[t]) == {1, 2, 3, 4} || Support(classes[t]) == {5, 6} {
      ClassesUnique(ExamplePairs, classes, reference, t);
      var u :| 0 <= u < |reference| && Support(classes[t]) == Support(reference[u]);
      assert Support(reference[0]) == {1, 2, 3, 4} && Support(reference[1]) == {5, 6};
    }
  }

  /** Disjoint classes, each {1, 2, 3, 4} or {5, 6}, that hold 1 and 5 are exactly those two. */
  lemma ExampleCount(classes: seq<seq<int>>)
    requires forall t :: 0 <= t < |classes| ==> Support(classes[t]) == {1, 2, 3, 4} || Support(classes[t]) == {5, 6}
    requires Disjoint(classes) && Classified(1, classes) && Classified(5, classes)
    ensures |classes| == 2
    ensures exists t :: 0 <= t < |classes| && Support(classes[t]) == {1, 2, 3, 4}
    ensures exists t :: 0 <= t < |classes| && Support(classes[t]) == {5, 6}
  {
    var t1 :| 0 <= t1 < |classes| && 1 in classes[t1];
    var t5 :| 0 <= t5 < |classes| && 5 in classes[t5];
    assert 1 in Support(classes[t1]) && 5 in Support(classes[t5]);
    assert t1 != t5 by {
      assert 1 !in Support(classes[t5]);
    }
    // Any index other than t1 and t5 would be a third class.
    var t := if |classes| > 2 then (if t1 != 0 && t5 != 0 then 0 else if t1 != 1 && t5 != 1 then 1 else 2) else t1;
    ExampleOnlyTwo(classes, t1, t5, t);
  }

  /** Every class shares 1 or 5 with the class holding it, so it is that class. */
  lemma ExampleOnlyTwo(classes: seq<seq<int>>, t1: nat, t5: nat, t: nat)
    requires forall t :: 0 <= t < |classes| ==> Support(classes[t]) == {1, 2, 3, 4} || Support(classes[t]) == {5, 6}
    requires Disjoint(classes)
    requires t1 < |classes| && t5 < |classes| && t < |classes| && 1 in classes[t1] && 5 in classes[t5]
    ensures t == t1 || t == t5
  {
    assert 1 in Support(classes[t]) || 5 in Support(classes[t]);
    // Mentioning the two Apart facts lets Disjoint be applied to them.
    ghost var apart := Apart(classes[t], classes[t1]) && Apart(classes[t], classes[t5]);
  }

  /*
   * The state of the loop at lines 261-267, seen as values: `owner` is the
   * dictionary from an element to (the identity of) its group, `contents`
   * gives the list each group identity currently holds.
   */

  /** Every member of the list of an element's group is owned by that group. */
  ghost predicate Closed<T, R>(owner: map<T, R>, contents: map<R, seq<T>>) {
    forall k, x {:trigger x in contents[owner[k]]} ::
      k in owner && owner[k] in contents && x in contents[owner[k]] ==> x in owner && owner[x] == owner[k]
  }

  /** Every element is in the list of its group, and that list is a connected class of distinct elements all owned by it. */
  ghost predicate OwnersValid<T(!new), R>(pairs: seq<(T, T)>, owner: map<T, R>, contents: map<R, seq<T>>) {
    (forall k :: k in owner ==> owner[k] in contents && k in contents[owner[k]]) &&
    Closed(owner, contents) &&
    (forall k :: k in owner ==> NoDup(contents[owner[k]]) && Connected(pairs, Support(contents[owner[k]])))
  }

  /** The first `n` pairs have their two elements in one group. */
  predicate PrefixTogether<T, R(==)>(pairs: seq<(T, T)>, n: nat, owner: map<T, R>)
    requires n <= |pairs|
  {
    forall j :: 0 <= j < n ==>
      pairs[j].0 in owner && pairs[j].1 in owner && owner[pairs[j].0] == owner[pairs[j].1]
  }

  /** `owner` with every element of `members` re-pointed to `g`. */
  function Repointed<T, R>(owner: map<T, R>, members: seq<T>, g: R): (r: map<T, R>)
    ensures r.Keys == owner.Keys + Support(members)
  {
    map k | k in owner.Keys + Support(members) :: if k in members then g else owner[k]
  }

  lemma RepointedSnoc<T, R>(owner: map<T, R>, members: seq<T>, g: R, j: nat)
    requires j < |members|
    ensures Repointed(owner, members[..j + 1], g) == Repointed(owner, members[..j], g)[members[j] := g]
  {
    assert members[..j + 1] == members[..j] + [members[j]];
  }

  /** Adding a new element with its own new singleton group keeps the state valid. */
  lemma InsertSingleton<T(!new), R>(pairs: seq<(T, T)>, n: nat, owner: map<T, R>, contents: map<R, seq<T>>, a: T, g: R)
    requires n <= |pairs|
    requires OwnersValid(pairs, owner, contents) && PrefixTogether(pairs, n, owner)
    requires a !in owner && g !in contents
    ensures OwnersValid(pairs, owner[a := g], contents[g := [a]])
    ensures PrefixTogether(pairs, n, owner[a := g])
  {
    SingletonConnected(pairs, a);
    assert Support([a]) == {a};
    var owner', contents' := owner[a := g], contents[g := [a]];
    forall k | k in owner' ensures owner'[k] in contents' && k in contents'[owner'[k]] {
      if k != a { assert owner[k] != g; }
    }
    forall k, x | k in owner' && x in contents'[owner'[k]] ensures x in owner' && owner'[x] == owner'[k] {
      if k != a { assert owner[k] != g; }
    }
  }

  /**
   * The situation at line 264 when the two groups differ: `g` owns
   * `pairs[n].0`, `h` holds `pairs[n].1` and is either a group of the
   * dictionary or a new singleton list whose element is not yet a key.
   */
  ghost predicate MergeReady<T(!new), R>(pairs: seq<(T, T)>, n: nat, owner: map<T, R>, contents: map<R, seq<T>>, g: R, h: R) {
    n < |pairs| &&
    OwnersValid(pairs, owner, contents) && PrefixTogether(pairs, n, owner) &&
    pairs[n].0 in owner && owner[pairs[n].0] == g &&
    h in contents && h != g && pairs[n].1 in contents[h] &&
    NoDup(contents[h]) && Connected(pairs, Support(contents[h])) &&
    (forall x :: x in contents[h] ==> x !in owner || owner[x] == h)
  }

  /** The lists of the two groups have no element in common. */
  lemma MergeDisjoint<T(!new), R>(pairs: seq<(T, T)>, n: nat, owner: map<T, R>, contents: map<R, seq<T>>, g: R, h: R)
    requires MergeReady(pairs, n, owner, contents, g, h)
    ensures Support(contents[g]) !! Support(contents[h])
  {
    var a := pairs[n].0;
    assert g in contents;
    forall x | x in contents[g] ensures x !in contents[h] {
      assert owner[x] == owner[a];
    }
  }

  /** The extended list of `g` is a connected class without repetitions. */
  lemma MergedClass<T(!new), R>(pairs: seq<(T, T)>, n: nat, owner: map<T, R>, contents: map<R, seq<T>>, g: R, h: R)
    requires MergeReady(pairs, n, owner, contents, g, h)
    ensures NoDup(contents[g] + contents[h])
    ensures Connected(pairs, Support(contents[g] + contents[h]))
  {
    var mg, mh := contents[g], contents[h];
    MergeDisjoint(pairs, n, owner, contents, g, h);
    assert NoDup(mg) && Connected(pairs, Support(mg)) by {
      assert owner[pairs[n].0] == g;
    }
    forall i, k | 0 <= i < k < |mg + mh| ensures (mg + mh)[i] != (mg + mh)[k] {
      if i < |mg| && k >= |mg| {
        assert (mg + mh)[i] in mg && (mg + mh)[k] in mh;
      }
    }
    assert Support(mg + mh) == Support(mg) + Support(mh);
    assert pairs[n].0 in mg;
    MergeConnected(pairs, Support(mg), Support(mh), n);
  }

  /** After the merge every element is in the list of its new group, and that group's members are owned by it. */
  lemma MergeOwners<T(!new), R>(pairs: seq<(T, T)>, n: nat, owner: map<T, R>, contents: map<R, seq<T>>, g: R, h: R)
    requires MergeReady(pairs, n, owner, contents, g, h)
    ensures var owner' := Repointed(owner, contents[h], g);
      var contents' := contents[g := contents[g] + contents[h]];
      (forall k :: k in owner' ==> owner'[k] in contents' && k in contents'[owner'[k]]) &&
      (forall k, x :: k in owner' && x in contents'[owner'[k]] ==> x in owner' && owner'[x] == owner'[k])
  {
    var mg, mh := contents[g], contents[h];
    var owner' := Repointed(owner, mh, g);
    var contents' := contents[g := mg + mh];
    MergeDisjoint(pairs, n, owner, contents, g, h);
    forall k | k in owner' ensures owner'[k] in contents' && k in contents'[owner'[k]] {
      if k !in mh && owner[k] == g {
        assert k in mg;
      }
    }
    forall k, x | k in owner' && x in contents'[owner'[k]] ensures x in owner' && owner'[x] == owner'[k] {
      if owner'[k] == g {
        if x in mg {
          assert owner[x] == owner[pairs[n].0];
        }
      } else {
        assert k !in mh && owner[k] != h;
        assert x in contents[owner[k]];
      }
    }
  }

  /** After the merge the first `n + 1` pairs have their elements in one group. */
  lemma MergeTogether<T(!new), R>(pairs: seq<(T, T)>, n: nat, owner: map<T, R>, contents: map<R, seq<T>>, g: R, h: R)
    requires MergeReady(pairs, n, owner, contents, g, h)
    ensures PrefixTogether(pairs, n + 1, Repointed(owner, contents[h], g))
  {
    var mh := contents[h];
    var owner' := Repointed(owner, mh, g);
    MergeDisjoint(pairs, n, owner, contents, g, h);
    forall j | 0 <= j < n + 1
      ensures pairs[j].0 in owner' && pairs[j].1 in owner' && owner'[pairs[j].0] == owner'[pairs[j].1]
    {
      if j < n {
        var o := owner[pairs[j].0];
        if o == h {
          assert pairs[j].0 in mh && pairs[j].1 in mh;
        } else {
          assert pairs[j].0 !in mh && pairs[j].1 !in mh;
        }
      } else {
        assert pairs[n].0 in contents[g];
      }
    }
  }

  /**
   * Appending the list of group `h` to that of group `g` and re-pointing the
   * members of `h` to `g` keeps the state valid and puts the two elements of
   * `pairs[n]` together.
   */
  lemma MergeGroups<T(!new), R>(pairs: seq<(T, T)>, n: nat, owner: map<T, R>, contents: map<R, seq<T>>, g: R, h: R)
    requires MergeReady(pairs, n, owner, contents, g, h)
    ensures var owner' := Repointed(owner, contents[h], g);
      var contents' := contents[g := contents[g] + contents[h]];
      OwnersValid(pairs, owner', contents') && PrefixTogether(pairs, n + 1, owner')
  {
    var owner' := Repointed(owner, contents[h], g);
    var contents' := contents[g := contents[g] + contents[h]];
    MergedClass(pairs, n, owner, contents, g, h);
    MergeOwners(pairs, n, owner, contents, g, h);
    MergeTogether(pairs, n, owner, contents, g, h);
    forall k | k in owner' ensures NoDup(contents'[owner'[k]]) && Connected(pairs, Support(contents'[owner'[k]])) {
      if owner'[k] != g {
        assert k !in contents[h];
      }
    }
  }

  /*
   * Lines 268-274: each group is reported once, by the element it starts with.
   */

  /** Among the keys in `done`, exactly those that start their group's list are `leaders`, and `classes` holds their lists. */
  ghost predicate LeadersListed<T, R>(owner: map<T, R>, contents: map<R, seq<T>>, done: set<T>, leaders: seq<T>, classes: seq<seq<T>>) {
    done <= owner.Keys && |leaders| == |classes| && NoDup(leaders) &&
    (forall k :: k in owner ==> owner[k] in contents && k in contents[owner[k]]) &&
    (forall t :: 0 <= t < |leaders| ==>
      leaders[t] in done && classes[t] == contents[owner[leaders[t]]] && classes[t][0] == leaders[t]) &&
    (forall k :: k in done && contents[owner[k]][0] == k ==> k in leaders)
  }

  lemma LeadersStep<T, R>(owner: map<T, R>, contents: map<R, seq<T>>, done: set<T>, leaders: seq<T>, classes: seq<seq<T>>, e: T)
    requires LeadersListed(owner, contents, done, leaders, classes)
    requires e in owner && e !in done
    ensures var list := contents[owner[e]];
      LeadersListed(owner, contents, done + {e},
        if e == list[0] then leaders + [e] else leaders,
        if e == list[0] then classes + [list] else classes)
  {
  }

  /** When every key is done, the list of the group of any key is among `classes`. */
  lemma ClassOfListed<T, R>(owner: map<T, R>, contents: map<R, seq<T>>, leaders: seq<T>, classes: seq<seq<T>>, x: T)
    requires LeadersListed(owner, contents, owner.Keys, leaders, classes)
    requires Closed(owner, contents)
    requires x in owner
    ensures exists t :: 0 <= t < |classes| && classes[t] == contents[owner[x]]
  {
    var l := contents[owner[x]][0];
    assert l in contents[owner[x]];
    assert owner[l] == owner[x];
    var t :| 0 <= t < |leaders| && leaders[t] == l;
    assert classes[t] == contents[owner[x]];
  }

  /** When every key is done, the two elements of each pair are in one of the listed classes. */
  lemma LeadersTogether<T, R>(pairs: seq<(T, T)>, owner: map<T, R>, contents: map<R, seq<T>>, leaders: seq<T>, classes: seq<seq<T>>)
    requires LeadersListed(owner, contents, owner.Keys, leaders, classes)
    requires Closed(owner, contents)
    requires PrefixTogether(pairs, |pairs|, owner)
    ensures Together(pairs, classes)
  {
    forall j | 0 <= j < |pairs| ensures InOneClass(pairs[j], classes) {
      var x, y := pairs[j].0, pairs[j].1;
      ClassOfListed(owner, contents, leaders, classes, x);
      var t :| 0 <= t < |classes| && classes[t] == contents[owner[x]];
      assert owner[x] == owner[y];
      assert x in contents[owner[x]] && y in contents[owner[y]];
      assert x in classes[t] && y in classes[t];
    }
  }

  /** The lists of distinct leaders have no element in common. */
  lemma LeadersDisjoint<T, R>(owner: map<T, R>, contents: map<R, seq<T>>, leaders: seq<T>, classes: seq<seq<T>>)
    requires LeadersListed(owner, contents, owner.Keys, leaders, classes)
    requires Closed(owner, contents)
    ensures Disjoint(classes)
  {
    forall t, u | 0 <= t < |classes| && 0 <= u < |classes| && t != u ensures Apart(classes[t], classes[u]) {
      assert classes[t][0] != classes[u][0];
      assert owner[leaders[t]] != owner[leaders[u]];
      forall x | x in classes[t] ensures x !in classes[u] {
        assert owner[x] == owner[leaders[t]];
      }
    }
  }

  /** When every key is done and the keys are the elements of the pairs, the classes hold exactly those elements. */
  lemma LeadersCover<T, R>(pairs: seq<(T, T)>, owner: map<T, R>, contents: map<R, seq<T>>, leaders: seq<T>, classes: seq<seq<T>>)
    requires LeadersListed(owner, contents, owner.Keys, leaders, classes)
    requires Closed(owner, contents)
    requires owner.Keys == Elements(pairs)
    ensures Covers(pairs, classes)
  {
    forall x | x in Elements(pairs) ensures Classified(x, classes) {
      ClassOfListed(owner, contents, leaders, classes, x);
      var t :| 0 <= t < |classes| && classes[t] == contents[owner[x]];
      assert x in contents[owner[x]];
    }
    forall t, x | 0 <= t < |classes| && x in classes[t] ensures x in Elements(pairs) {
      assert leaders[t] in owner;
    }
  }

  /** Every listed class is the non-empty, connected list of a group, without repetitions. */
  lemma LeadersWellFormed<T(!new), R>(pairs: seq<(T, T)>, owner: map<T, R>, contents: map<R, seq<T>>, leaders: seq<T>, classes: seq<seq<T>>)
    requires OwnersValid(pairs, owner, contents)
    requires LeadersListed(owner, contents, owner.Keys, leaders, classes)
    ensures ClassesWellFormed(pairs, classes)
  {
    forall t | 0 <= t < |classes|
      ensures |classes[t]| > 0 && NoDup(classes[t]) && Connected(pairs, Support(classes[t]))
    {
      var l := leaders[t];
      assert l in owner;
      assert l in contents[owner[l]];
    }
  }

  /** When every key is done, the lists of the leaders are the equivalence classes. */
  lemma LeadersAreClasses<T(!new), R>(pairs: seq<(T, T)>, owner: map<T, R>, contents: map<R, seq<T>>, leaders: seq<T>, classes: seq<seq<T>>)
    requires OwnersValid(pairs, owner, contents) && PrefixTogether(pairs, |pairs|, owner)
    requires owner.Keys == Elements(pairs)
    requires LeadersListed(owner, contents, owner.Keys, leaders, classes)
    ensures EquivalenceClasses(pairs, classes)
  {
    LeadersDisjoint(owner, contents, leaders, classes);
    LeadersTogether(pairs, owner, contents, leaders, classes);
    LeadersCover(pairs, owner, contents, leaders, classes);
    LeadersWellFormed(pairs, owner, contents, leaders, classes);
  }

  /** The list a Python group is: shared by all the dictionary entries of its members. */
  class Group<T> {
    var members: seq<T>

    constructor (x: T)
      ensures members == [x]
    {
      members := [x];
    }
  }

  /**
   * Lines 265-267: appends the list of `otherGroup` to that of `group` and
   * re-points every member of `otherGroup` to `group`.
   */
  method Merge<T>(groups: map<T, Group<T>>, group: Group<T>, otherGroup: Group<T>) returns (groups': map<T, Group<T>>)
    requires group != otherGroup
    modifies group
    ensures group.members == old(group.members) + otherGroup.members
    ensures groups' == Repointed(groups, otherGroup.members, group)
  {
    group.members := group.members + otherGroup.members;
    groups' := groups;
    for j := 0 to |otherGroup.members|
      invariant groups' == Repointed(groups, otherGroup.members[..j], group)
      invariant group.members == old(group.members) + otherGroup.members
    {
      RepointedSnoc(groups, otherGroup.members, group, j);
      groups' := groups'[otherGroup.members[j] := group];
    }
    assert otherGroup.members[..|otherGroup.members|] == otherGroup.members;
  }

  /** Lines 268-274: the list of every group, reported by the element it starts with. */
  method ListGroups<T>(groups: map<T, Group<T>>, ghost contents: map<Group<T>, seq<T>>) returns (classes: seq<seq<T>>, ghost leaders: seq<T>)
    requires forall k :: k in groups ==>
      groups[k] in contents && k in contents[groups[k]] && groups[k].members == contents[groups[k]]
    ensures LeadersListed(groups, contents, groups.Keys, leaders, classes)
  {
    classes, leaders := [], [];
    var rest := groups.Keys;
    while rest != {}
      invariant rest <= groups.Keys
      invariant LeadersListed(groups, contents, groups.Keys - rest, leaders, classes)
      decreases rest
    {
      var element :| element in rest;
      var group := groups[element];
      LeadersStep(groups, contents, groups.Keys - rest, leaders, classes, element);
      if element == group.members[0] {
        classes := classes + [group.members];
        leaders := leaders + [element];
      }
      assert groups.Keys - (rest - {element}) == (groups.Keys - rest) + {element};
      rest := rest - {element};
    }
  }

  /** Every group of the dictionary holds the list `contents` records for it. */
  ghost predicate Mirrors<T>(groups: map<T, Group<T>>, contents: map<Group<T>, seq<T>>)
    reads groups.Values
  {
    forall k :: k in groups ==> groups[k] in contents && groups[k].members == contents[groups[k]]
  }

  /** The state of the dictionary, and what its groups hold, after the first `n` pairs. */
  ghost predicate StateAfter<T(!new)>(pairs: seq<(T, T)>, n: nat, groups: map<T, Group<T>>, contents: map<Group<T>, seq<T>>)
    requires n <= |pairs|
    reads groups.Values
  {
    groups.Keys == Elements(pairs[..n]) &&
    OwnersValid(pairs, groups, contents) && PrefixTogether(pairs, n, groups) && Mirrors(groups, contents)
  }

  /** Line 262, `groups.setdefault(element, [element])`: the group of `element`, made a new singleton group when it has none. */
  method SetDefault<T(==,!new)>(pairs: seq<(T, T)>, n: nat, groups: map<T, Group<T>>, ghost contents: map<Group<T>, seq<T>>, element: T)
    returns (group: Group<T>, groups': map<T, Group<T>>, ghost contents': map<Group<T>, seq<T>>)
    requires n <= |pairs| && OwnersValid(pairs, groups, contents) && PrefixTogether(pairs, n, groups) && Mirrors(groups, contents)
    ensures OwnersValid(pairs, groups', contents') && PrefixTogether(pairs, n, groups') && Mirrors(groups', contents')
    ensures groups'.Keys == groups.Keys + {element} && groups'[element] == group
    ensures element in groups ==> groups' == groups && contents' == contents
    ensures element !in groups ==> fresh(group) && groups' == groups[element := group] && contents' == contents[group := [element]]
    ensures fresh(groups'.Values - groups.Values) && (group in groups.Values || fresh(group))
  {
    if element in groups {
      group, groups', contents' := groups[element], groups, contents;
    } else {
      group := new Group(element);
      InsertSingleton(pairs, n, groups, contents, element, group);
      groups', contents' := groups[element := group], contents[group := [element]];
    }
  }

  /** Lines 264-267: merges the group of `otherGroup` into `group`, which owns `pairs[n].0`. */
  method Unite<T(==,!new)>(pairs: seq<(T, T)>, n: nat, groups: map<T, Group<T>>, ghost contents: map<Group<T>, seq<T>>, group: Group<T>, otherGroup: Group<T>)
    returns (groups': map<T, Group<T>>, ghost contents': map<Group<T>, seq<T>>)
    requires n < |pairs| && pairs[n].0 in groups && groups[pairs[n].0] == group
    requires Mirrors(groups, contents) && otherGroup in contents && otherGroup.members == contents[otherGroup]
    requires otherGroup != group ==> MergeReady(pairs, n, groups, contents, group, otherGroup)
    requires otherGroup == group ==> OwnersValid(pairs, groups, contents) && PrefixTogether(pairs, n + 1, groups)
    modifies group
    ensures OwnersValid(pairs, groups', contents') && PrefixTogether(pairs, n + 1, groups') && Mirrors(groups', contents')
    ensures groups'.Keys == groups.Keys + Support(contents[otherGroup])
    ensures groups'.Values <= groups.Values
  {
    if otherGroup == group {
      groups', contents' := groups, contents;
      assert pairs[n].0 in contents[group];
      return;
    }
    MergeGroups(pairs, n, groups, contents, group, otherGroup);
    groups' := Merge(groups, group, otherGroup);
    contents' := contents[group := group.members];
    forall k | k in groups' ensures groups'[k] in contents' && groups'[k].members == contents'[groups'[k]] {
      if groups'[k] != group {
        assert k in groups && groups'[k] == groups[k];
      }
    }
  }

  /**
   * Line 263, `groups.get(other_element, [other_element])`: the group of
   * `pairs[n].1`, or a new singleton list that the dictionary does not hold.
   */
  method Get<T(==,!new)>(pairs: seq<(T, T)>, n: nat, groups: map<T, Group<T>>, ghost contents: map<Group<T>, seq<T>>, group: Group<T>)
    returns (otherGroup: Group<T>, ghost contents': map<Group<T>, seq<T>>)
    requires n < |pairs| && OwnersValid(pairs, groups, contents) && PrefixTogether(pairs, n, groups) && Mirrors(groups, contents)
    requires pairs[n].0 in groups && groups[pairs[n].0] == group
    ensures Mirrors(groups, contents') && otherGroup in contents' && otherGroup.members == contents'[otherGroup]
    ensures Support(contents'[otherGroup]) <= groups.Keys + {pairs[n].1} && pairs[n].1 in contents'[otherGroup]
    ensures otherGroup != group ==> MergeReady(pairs, n, groups, contents', group, otherGroup)
    ensures otherGroup == group ==> contents' == contents && PrefixTogether(pairs, n + 1, groups)
    ensures otherGroup in groups.Values || fresh(otherGroup)
  {
    var otherElement := pairs[n].1;
    if otherElement in groups {
      otherGroup, contents' := groups[otherElement], contents;
    } else {
      otherGroup := new Group(otherElement);
      SingletonConnected(pairs, otherElement);
      assert Support([otherElement]) == {otherElement};
      contents' := contents[otherGroup := [otherElement]];
      forall k | k in groups ensures groups[k] in contents' && groups[k].members == contents'[groups[k]] {
        assert groups[k] != otherGroup;
      }
    }
  }

  /** Lines 262-267: one iteration of the loop over the pairs. */
  method AddPair<T(==,!new)>(pairs: seq<(T, T)>, i: nat, groups: map<T, Group<T>>, ghost contents: map<Group<T>, seq<T>>)
    returns (groups': map<T, Group<T>>, ghost contents': map<Group<T>, seq<T>>)
    requires i < |pairs| && StateAfter(pairs, i, groups, contents)
    modifies groups.Values
    ensures StateAfter(pairs, i + 1, groups', contents')
    ensures fresh(groups'.Values - groups.Values)
  {
    ElementsSnoc(pairs, i);
    var group, otherGroup;
    group, groups', contents' := SetDefault(pairs, i, groups, contents, pairs[i].0);
    otherGroup, contents' := Get(pairs, i, groups', contents', group);
    groups', contents' := Unite(pairs, i, groups', contents', group, otherGroup);
  }

  /**
   * `groups_from_pairs`: merges overlapping pairs into groups, which are the
   * equivalence classes of the relation the pairs generate.
   */
  method GroupsFromPairs<T(==,!new)>(pairs: seq<(T, T)>) returns (classes: seq<seq<T>>)
    ensures EquivalenceClasses(pairs, classes)
  {
    var groups: map<T, Group<T>> := map[];
    ghost var contents: map<Group<T>, seq<T>> := map[];
    for i := 0 to |pairs|
      invariant StateAfter(pairs, i, groups, contents)
      invariant fresh(groups.Values)
    {
      groups, contents := AddPair(pairs, i, groups, contents);
    }
    assert pairs[..|pairs|] == pairs;
    ghost var leaders;
    classes, leaders := ListGroups(groups, contents);
    LeadersAreClasses(pairs, groups, contents, leaders, classes);
  }
}
