/** Sizes of sets, and multisets of sequences. */
module Collections {

  lemma {:induction false} SubsetSize<T>(small: set<T>, large: set<T>)
    requires small <= large
    ensures |small| <= |large|
    ensures |small| == |large| ==> small == large
  {
    if small == {} {
      assert large != {} ==> |large| > 0;
    } else {
      var x :| x in small;
      SubsetSize(small - {x}, large - {x});
    }
  }

  lemma WithoutOne<T>(items: seq<T>, j: nat)
    requires j < |items|
    ensures multiset(items) == multiset(items[..j] + items[j + 1..]) + multiset{items[j]}
    ensures multiset(items[..j] + items[j + 1..]) == multiset(items) - multiset{items[j]}
  {
    assert items == items[..j] + [items[j]] + items[j + 1..];
  }

  lemma FindOne<T>(items: seq<T>, x: T) returns (j: nat)
    requires x in multiset(items)
    ensures j < |items| && items[j] == x
  {
    j :| 0 <= j < |items| && items[j] == x;
  }

  lemma SameSize<T>(a: seq<T>, b: seq<T>)
    requires multiset(a) == multiset(b)
    ensures |a| == |b|
  {
    assert |multiset(a)| == |a| && |multiset(b)| == |b|;
  }

  /** The first item of a sequence can be taken out of any rearrangement of it. */
  lemma MatchFirst<T>(items: seq<T>, others: seq<T>) returns (j: nat)
    requires items != [] && multiset(items) == multiset(others)
    ensures j < |others| && others[j] == items[0]
    ensures multiset(items[..0] + items[0 + 1..]) == multiset(others[..j] + others[j + 1..])
  {
    assert items[0] in multiset(items);
    j := FindOne(others, items[0]);
    WithoutOne(items, 0);
    WithoutOne(others, j);
  }
}
