/**
 * `ORDER BY sku` over a set of keys: the keys listed in ascending code-point
 * order, and the rank of a key (how many keys sort before it).
 */
module Ordering {
  import opened Text

  predicate StrictlySorted(xs: seq<string>) {
    forall i, j :: 0 <= i < j < |xs| ==> Less(xs[i], xs[j])
  }

  /** Number of keys of `s` that sort before `x`. */
  ghost function Rank(s: set<string>, x: string): nat {
    |set t | t in s && Less(t, x)|
  }

  /** The least key of a non-empty set. */
  ghost function Least(s: set<string>): (m: string)
    requires s != {}
    ensures m in s
    ensures forall t :: t in s && t != m ==> Less(m, t)
    decreases |s|
  {
    var x :| x in s;
    if s == {x} then x
    else
      var m' := Least(s - {x});
      LessTotal(x, m');
      if Less(x, m') then
        assert forall t :: t in s - {x} && t != m' ==> Less(x, t) by {
          forall t | t in s - {x} && t != m' ensures Less(x, t) {
            LessTransitive(x, m', t);
          }
        }
        x
      else
        m'
  }

  /** The keys of `s` in ascending order, each once. */
  ghost function SortedKeys(s: set<string>): (r: seq<string>)
    ensures |r| == |s|
    ensures forall x :: x in r <==> x in s
    decreases |s|
  {
    if s == {} then []
    else
      var m := Least(s);
      [m] + SortedKeys(s - {m})
  }

  /** A key below every key of a strictly ascending listing can be put in front of it. */
  lemma ConsSorted(m: string, rest: seq<string>)
    requires StrictlySorted(rest) && forall k :: 0 <= k < |rest| ==> Less(m, rest[k])
    ensures StrictlySorted([m] + rest)
  {
    var xs := [m] + rest;
    forall i, j | 0 <= i < j < |xs| ensures Less(xs[i], xs[j]) {
      assert xs[j] == rest[j - 1];
      if i > 0 {
        assert xs[i] == rest[i - 1];
      }
    }
  }

  /** The listing is strictly ascending. */
  lemma {:induction false} SortedKeysSorted(s: set<string>)
    ensures StrictlySorted(SortedKeys(s))
    decreases |s|
  {
    if s != {} {
      var m := Least(s);
      var rest := SortedKeys(s - {m});
      SortedKeysSorted(s - {m});
      forall k | 0 <= k < |rest| ensures Less(m, rest[k]) {
        assert rest[k] in s - {m};
      }
      ConsSorted(m, rest);
    }
  }

  /** A sequence without repeats has as many distinct elements as positions. */
  lemma {:induction false} DistinctCard(xs: seq<string>)
    requires forall i, j :: 0 <= i < j < |xs| ==> xs[i] != xs[j]
    ensures |set x | x in xs| == |xs|
    decreases |xs|
  {
    if xs != [] {
      var init := xs[..|xs| - 1];
      var last := xs[|xs| - 1];
      DistinctCard(init);
      var before := set x | x in init;
      assert |before| == |init|;
      assert (set x | x in xs) == before + {last} by {
        assert xs == init + [last];
      }
      assert last !in before;
    }
  }

  /** In a sorted listing of exactly the keys of `s`, a key's position is its rank. */
  lemma RankIsPosition(s: set<string>, xs: seq<string>, i: nat)
    requires StrictlySorted(xs) && (forall x :: x in xs <==> x in s)
    requires i < |xs|
    ensures Rank(s, xs[i]) == i
  {
    var below := set t | t in s && Less(t, xs[i]);
    assert below == set x | x in xs[..i] by {
      forall t | t in below ensures t in xs[..i] {
        var j :| 0 <= j < |xs| && xs[j] == t;
        if j >= i {
          if j == i {
            LessIrreflexive(t);
          } else {
            LessAsymmetric(xs[i], xs[j]);
          }
        }
        assert xs[..i][j] == t;
      }
    }
    forall k, l | 0 <= k < l < i ensures xs[..i][k] != xs[..i][l] {
      if xs[k] == xs[l] {
        LessIrreflexive(xs[k]);
      }
    }
    DistinctCard(xs[..i]);
  }
}
