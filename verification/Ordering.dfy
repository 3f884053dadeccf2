/** The order names are sorted in, and sorting by it. */
module Ordering {

  /** Character codes; a separator below every code makes lists of strings compare part by part. */
  type Key = seq<int>
  const SEPARATOR: int := -1

  function Codes(text: string): (key: Key)
  {
    seq(|text|, i requires 0 <= i < |text| => text[i] as int)
  }

  /** Lexicographic order. */
  predicate Below(a: Key, b: Key)
  {
    if a == [] then true
    else if b == [] then false
    else a[0] < b[0] || (a[0] == b[0] && Below(a[1..], b[1..]))
  }

  lemma {:induction false} BelowIsTotalOrder(a: Key, b: Key, c: Key)
    ensures Below(a, b) || Below(b, a)
    ensures Below(a, b) && Below(b, a) ==> a == b
    ensures Below(a, b) && Below(b, c) ==> Below(a, c)
  {
    if a != [] && b != [] && c != [] {
      BelowIsTotalOrder(a[1..], b[1..], c[1..]);
    } else if a != [] && b != [] {
      BelowIsTotalOrder(a[1..], b[1..], []);
    }
    if a != [] && b != [] && a[0] == b[0] && a[1..] == b[1..] {
      assert a == [a[0]] + a[1..] && b == [b[0]] + b[1..];
    }
  }

  ghost predicate InOrder<T(!new)>(key: T -> Key, items: seq<T>)
  {
    forall i, j :: 0 <= i < j < |items| ==> Below(key(items[i]), key(items[j]))
  }

  /** Puts an item after everything not above it. */
  function Insert<T>(key: T -> Key, items: seq<T>, item: T): (r: seq<T>)
    ensures multiset(r) == multiset(items) + multiset{item} && |r| == |items| + 1
  {
    if items == [] then [item]
    else
      var last := |items| - 1;
      assert items == items[..last] + [items[last]];
      if Below(key(items[last]), key(item)) then items + [item]
      else Insert(key, items[..last], item) + [items[last]]
  }

  /** A stable sort. */
  function Sort<T>(key: T -> Key, items: seq<T>): (r: seq<T>)
    ensures multiset(r) == multiset(items) && |r| == |items|
  {
    if items == [] then []
    else
      var last := |items| - 1;
      assert items == items[..last] + [items[last]];
      Insert(key, Sort(key, items[..last]), items[last])
  }

  lemma {:induction false} InsertKeepsOrder<T(!new)>(key: T -> Key, items: seq<T>, item: T)
    requires InOrder(key, items)
    ensures InOrder(key, Insert(key, items, item))
  {
    if items != [] {
      var last := |items| - 1;
      if Below(key(items[last]), key(item)) {
        forall i | 0 <= i <= last ensures Below(key(items[i]), key(item)) {
          BelowIsTotalOrder(key(items[i]), key(items[last]), key(item));
        }
      } else {
        InsertKeepsOrder(key, items[..last], item);
        BelowIsTotalOrder(key(items[last]), key(item), []);
        var front := Insert(key, items[..last], item);
        forall i | 0 <= i < |front| ensures Below(key(front[i]), key(items[last])) {
          assert front[i] in multiset(front);
          assert multiset(front) == multiset(items[..last]) + multiset{item};
          if front[i] != item {
            assert front[i] in multiset(items[..last]);
          }
        }
      }
    }
  }

  lemma {:induction false} SortOrders<T(!new)>(key: T -> Key, items: seq<T>)
    ensures InOrder(key, Sort(key, items))
  {
    if items != [] {
      SortOrders(key, items[..|items| - 1]);
      InsertKeepsOrder(key, Sort(key, items[..|items| - 1]), items[|items| - 1]);
    }
  }

  // ----------------------------------------------- what the order is

  /** The same up to some place, where the first ends or is smaller. */
  ghost predicate UpTo(a: Key, b: Key, k: nat)
  {
    k <= |a| && k <= |b| && a[..k] == b[..k] && (k == |a| || (k < |b| && a[k] < b[k]))
  }

  lemma {:induction false} BelowExactly(a: Key, b: Key)
    ensures Below(a, b) <==> exists k: nat :: UpTo(a, b, k)
  {
    if a == [] {
      assert UpTo(a, b, 0);
    } else if b != [] {
      BelowExactly(a[1..], b[1..]);
      if a[0] < b[0] {
        assert UpTo(a, b, 0);
      } else if Below(a, b) {
        var k: nat :| UpTo(a[1..], b[1..], k);
        assert a[..k + 1] == [a[0]] + a[1..][..k] && b[..k + 1] == [b[0]] + b[1..][..k];
        assert UpTo(a, b, k + 1);
      }
      if k: nat :| UpTo(a, b, k) {
        if k > 0 {
          assert a[0] == a[..k][0] && b[0] == b[..k][0];
          assert a[1..][..k - 1] == a[..k][1..] && b[1..][..k - 1] == b[..k][1..];
          assert UpTo(a[1..], b[1..], k - 1);
        }
      }
    }
  }

  /** One text at or before another: the same up to a place where the first ends or has the smaller character. */
  ghost predicate NotAfter(s: string, t: string)
  {
    exists k: nat :: k <= |s| && k <= |t| && s[..k] == t[..k] && (k == |s| || (k < |t| && s[k] < t[k]))
  }

  lemma SameHeads(s: string, t: string, k: nat)
    requires k <= |s| && k <= |t|
    ensures Codes(s)[..k] == Codes(t)[..k] <==> s[..k] == t[..k]
  {
    if Codes(s)[..k] == Codes(t)[..k] {
      forall i | 0 <= i < k ensures s[i] == t[i] {
        assert Codes(s)[..k][i] == Codes(t)[..k][i];
      }
    }
    if s[..k] == t[..k] {
      forall i | 0 <= i < k ensures Codes(s)[i] == Codes(t)[i] {
        assert s[..k][i] == t[..k][i];
      }
    }
  }

  lemma CodesInOrder(s: string, t: string)
    ensures Below(Codes(s), Codes(t)) <==> NotAfter(s, t)
    ensures Codes(s) == Codes(t) <==> s == t
  {
    var a, b := Codes(s), Codes(t);
    BelowExactly(a, b);
    forall k: nat | k <= |s| && k <= |t| ensures a[..k] == b[..k] <==> s[..k] == t[..k] {
      SameHeads(s, t, k);
    }
    if k: nat :| UpTo(a, b, k) {
      assert k == |s| || (k < |t| && s[k] < t[k]);
    }
    if k: nat :| k <= |s| && k <= |t| && s[..k] == t[..k] && (k == |s| || (k < |t| && s[k] < t[k])) {
      assert UpTo(a, b, k);
    }
    if a == b {
      SameHeads(s, t, |s|);
      assert a[..|s|] == b[..|s|] && s[..|s|] == s && t[..|s|] == t;
    }
  }

  ghost predicate AboveSeparator(a: Key)
  {
    forall i :: 0 <= i < |a| ==> SEPARATOR < a[i]
  }

  /** A separator makes the part before it decide, and what follows it count only when that part is the same. */
  lemma {:induction false} PartsInOrder(a: Key, b: Key, left: Key, right: Key)
    requires AboveSeparator(a) && AboveSeparator(b)
    ensures Below(a + [SEPARATOR] + left, b + [SEPARATOR] + right) <==> if a == b then Below(left, right) else Below(a, b)
  {
    var whole, other := a + [SEPARATOR] + left, b + [SEPARATOR] + right;
    if a == [] {
      assert whole[1..] == left;
      if b == [] {
        assert other[1..] == right;
      }
    } else if b != [] {
      assert whole[1..] == a[1..] + [SEPARATOR] + left && other[1..] == b[1..] + [SEPARATOR] + right;
      assert a == [a[0]] + a[1..] && b == [b[0]] + b[1..];
      PartsInOrder(a[1..], b[1..], left, right);
    }
  }

  lemma CodesAreAbove(text: string)
    ensures AboveSeparator(Codes(text))
  {
  }
}
