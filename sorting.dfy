/** Python's `sorted(...)` as the scripts use it: on a set of integers it
    yields the members in strictly increasing order, on a list it yields an
    ascending permutation of the list. */
module Sorting {

  predicate StrictlyIncreasing(s: seq<int>) {
    forall i, j :: 0 <= i < j < |s| ==> s[i] < s[j]
  }

  predicate NonDecreasing(s: seq<int>) {
    forall i, j :: 0 <= i < j < |s| ==> s[i] <= s[j]
  }

  /** A non-empty finite set of integers has a least member. */
  lemma {:induction false} LeastExists(s: set<int>) returns (m: int)
    requires s != {}
    ensures m in s && forall y :: y in s ==> m <= y
  {
    if forall z :: z !in s {
      assert false;
    }
    var y :| y in s;
    if s == {y} {
      m := y;
    } else {
      var k := LeastExists(s - {y});
      m := if y < k then y else k;
      forall z | z in s ensures m <= z {
        if z != y {
          assert z in s - {y};
        }
      }
    }
  }

  /** `sorted(s)` for a set `s`: its members, each once, in increasing order. */
  method SortSet(s: set<int>) returns (r: seq<int>)
    ensures StrictlyIncreasing(r)
    ensures forall v :: v in r <==> v in s
    ensures |r| == |s|
  {
    r := [];
    var rest := s;
    while rest != {}
      invariant StrictlyIncreasing(r)
      invariant forall v :: v in s <==> v in r || v in rest
      invariant forall v, w :: v in r && w in rest ==> v < w
      invariant |r| + |rest| == |s|
      invariant forall v :: v in r ==> v !in rest
      decreases |rest|
    {
      ghost var least := LeastExists(rest);
      var m :| m in rest && forall y :: y in rest ==> m <= y;
      assert forall i :: 0 <= i < |r| ==> r[i] < m by {
        forall i | 0 <= i < |r| ensures r[i] < m {
          assert r[i] in r;
        }
      }
      r := r + [m];
      rest := rest - {m};
    }
  }

  /** Insert `v` into a list before its first entry not smaller than `v`. */
  function Insert(v: int, s: seq<int>): seq<int> {
    if s == [] then [v]
    else if v <= s[0] then [v] + s
    else [s[0]] + Insert(v, s[1..])
  }

  /** Inserting into an ascending list keeps it ascending and adds exactly
      one occurrence of `v`. */
  lemma {:induction false} InsertFacts(v: int, s: seq<int>)
    requires NonDecreasing(s)
    ensures NonDecreasing(Insert(v, s))
    ensures multiset(Insert(v, s)) == multiset(s) + multiset{v}
    ensures |Insert(v, s)| == |s| + 1
    ensures Insert(v, s)[0] == (if s == [] || v <= s[0] then v else s[0])
  {
    if s == [] {
      assert Insert(v, s) == [v];
    } else if v <= s[0] {
      assert Insert(v, s) == [v] + s;
      ConsAscending(v, s);
    } else {
      var rest := Insert(v, s[1..]);
      assert s == [s[0]] + s[1..];
      assert NonDecreasing(s[1..]);
      InsertFacts(v, s[1..]);
      assert s[0] <= rest[0] by {
        if s[1..] != [] {
          assert s[1..][0] == s[1];
        }
      }
      ConsAscending(s[0], rest);
      assert multiset([s[0]] + rest) == multiset{s[0]} + multiset(rest);
    }
  }

  /** An ascending list stays ascending behind a head no larger than its
      first element. */
  lemma ConsAscending(h: int, r: seq<int>)
    requires NonDecreasing(r) && r != [] && h <= r[0]
    ensures NonDecreasing([h] + r)
  {
    forall i, j | 0 <= i < j < |r| + 1 ensures ([h] + r)[i] <= ([h] + r)[j] {
      if i > 0 {
        assert ([h] + r)[i] == r[i - 1];
      }
      assert ([h] + r)[j] == r[j - 1];
    }
  }

  /** A prefix of an ascending list is ascending. */
  lemma PrefixAscending(s: seq<int>, k: nat)
    requires NonDecreasing(s) && k <= |s|
    ensures NonDecreasing(s[..k])
  {
    forall i, j | 0 <= i < j < k ensures s[..k][i] <= s[..k][j] {
      assert s[..k][i] == s[i] && s[..k][j] == s[j];
    }
  }

  /** `sorted(s)` for a list `s`, as insertion sort. */
  function Sort(s: seq<int>): seq<int> {
    if s == [] then [] else Insert(s[0], Sort(s[1..]))
  }

  /** `sorted(s)` is an ascending permutation of `s`. */
  lemma {:induction false} SortFacts(s: seq<int>)
    ensures NonDecreasing(Sort(s))
    ensures multiset(Sort(s)) == multiset(s)
  {
    if s != [] {
      assert s == [s[0]] + s[1..];
      SortFacts(s[1..]);
      InsertFacts(s[0], Sort(s[1..]));
    }
  }

  /** Sorting a list that starts with v inserts v into the sorted rest. */
  lemma SortCons(v: int, s: seq<int>)
    ensures Sort([v] + s) == Insert(v, Sort(s))
  {
    assert ([v] + s)[0] == v && ([v] + s)[1..] == s;
  }

  /** A value no larger than the head goes in front. */
  lemma InsertBeforeHead(v: int, s: seq<int>)
    requires s != [] && v <= s[0]
    ensures Insert(v, s) == [v] + s
  {
  }

  /** A value larger than the only element goes after it. */
  lemma InsertAfterHead(v: int, s: seq<int>)
    requires |s| == 1 && s[0] < v
    ensures Insert(v, s) == s + [v]
  {
    assert s[1..] == [];
  }

  /** The head of an ascending list is at most each of its elements. */
  lemma HeadIsLeast(r: seq<int>, v: int)
    requires NonDecreasing(r) && v in multiset(r)
    ensures r[0] <= v
  {
    assert v in r;
    var j :| 0 <= j < |r| && r[j] == v;
    assert j == 0 || r[0] <= r[j];
  }

  /** Two ascending lists with the same elements are equal, so `sorted`
      depends only on the multiset of its argument. */
  lemma {:induction false} AscendingUnique(r: seq<int>, t: seq<int>)
    requires NonDecreasing(r) && NonDecreasing(t) && multiset(r) == multiset(t)
    ensures r == t
  {
    if r == [] {
      assert |t| == |multiset(t)|;
    } else {
      assert |t| == |multiset(t)| == |multiset(r)| == |r|;
      assert r[0] in multiset(r) && t[0] in multiset(t);
      HeadIsLeast(r, t[0]);
      HeadIsLeast(t, r[0]);
      var r', t' := r[1..], t[1..];
      assert r == [r[0]] + r';
      assert t == [t[0]] + t';
      assert r[0] == t[0];
      assert multiset(r') == multiset(t') by {
        assert multiset(r) == multiset{r[0]} + multiset(r');
        assert multiset(t) == multiset{t[0]} + multiset(t');
        assert multiset(r') == multiset(r) - multiset{r[0]};
        assert multiset(t') == multiset(t) - multiset{t[0]};
      }
      assert NonDecreasing(r') && NonDecreasing(t');
      AscendingUnique(r', t');
    }
  }

  /** Sorting an already ascending list changes nothing. */
  lemma SortOfAscending(s: seq<int>)
    requires NonDecreasing(s)
    ensures Sort(s) == s
  {
    SortFacts(s);
    AscendingUnique(Sort(s), s);
  }

  /** A list without repetitions has as many elements as its set. */
  lemma {:induction false} DistinctListSize(s: seq<int>)
    requires StrictlyIncreasing(s)
    ensures |set v | v in s| == |s|
  {
    if s != [] {
      var init := s[..|s| - 1];
      DistinctListSize(init);
      assert (set v | v in s) == (set v | v in init) + {s[|s| - 1]};
      assert s[|s| - 1] !in init;
    } else {
      assert (set v | v in s) == {};
    }
  }

  /** An increasing list whose only member is v is [v]. */
  lemma SingletonList(s: seq<int>, v: int)
    requires StrictlyIncreasing(s) && forall w :: w in s <==> w == v
    ensures s == [v]
  {
    StrictSameMembers(s, [v]);
  }

  /** The head of an increasing list is its least member, and every other
      member is in its tail. */
  lemma IncreasingHead(s: seq<int>, v: int)
    requires StrictlyIncreasing(s) && v in s
    ensures s[0] <= v
    ensures v in s[1..] <==> v != s[0]
  {
    var i :| 0 <= i < |s| && s[i] == v;
    if i > 0 {
      assert s[1..][i - 1] == v;
    }
  }

  /** A member of the tail is a member of the list. */
  lemma TailMember(s: seq<int>, v: int)
    requires s != [] && v in s[1..]
    ensures v in s
  {
    var j :| 0 <= j < |s| - 1 && s[1..][j] == v;
    assert s[j + 1] == v;
  }

  /** Two increasing lists with the same members are equal. */
  lemma {:induction false} StrictSameMembers(s: seq<int>, t: seq<int>)
    requires StrictlyIncreasing(s) && StrictlyIncreasing(t)
    requires forall v :: v in s <==> v in t
    ensures s == t
  {
    if s != [] {
      assert s[0] in s;
    }
    if t != [] {
      assert t[0] in t;
    }
    if s != [] {
      IncreasingHead(s, t[0]);
      IncreasingHead(t, s[0]);
      forall v ensures v in s[1..] <==> v in t[1..] {
        if v in s[1..] {
          TailMember(s, v);
          IncreasingHead(s, v);
          IncreasingHead(t, v);
        }
        if v in t[1..] {
          TailMember(t, v);
          IncreasingHead(s, v);
          IncreasingHead(t, v);
        }
      }
      StrictSameMembers(s[1..], t[1..]);
      assert s == [s[0]] + s[1..] && t == [t[0]] + t[1..];
    }
  }
}
