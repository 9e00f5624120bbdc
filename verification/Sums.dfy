/** Sums of integers indexed by a finite set. */
module Sums {

  ghost function Sum<K>(s: set<K>, f: map<K, int>): (r: int)
    requires s <= f.Keys
  {
    if s == {} then 0 else var k :| k in s; f[k] + Sum(s - {k}, f)
  }

  /** Any element may be taken out first. */
  lemma {:induction false} SumPick<K>(s: set<K>, f: map<K, int>, k: K)
    requires s <= f.Keys && k in s
    ensures Sum(s, f) == f[k] + Sum(s - {k}, f)
    decreases s
  {
    var j :| j in s && Sum(s, f) == f[j] + Sum(s - {j}, f);
    if j != k {
      SumPick(s - {j}, f, k);
      SumPick(s - {k}, f, j);
      assert s - {j} - {k} == s - {k} - {j};
    }
  }

  lemma {:induction false} SumSame<K>(s: set<K>, f: map<K, int>, g: map<K, int>)
    requires s <= f.Keys && s <= g.Keys && forall k :: k in s ==> f[k] == g[k]
    ensures Sum(s, f) == Sum(s, g)
    decreases s
  {
    if s != {} {
      var k :| k in s;
      SumPick(s, f, k);
      SumPick(s, g, k);
      SumSame(s - {k}, f, g);
    }
  }

  lemma {:induction false} SumAtMost<K>(s: set<K>, f: map<K, int>, g: map<K, int>)
    requires s <= f.Keys && s <= g.Keys && forall k :: k in s ==> f[k] <= g[k]
    ensures Sum(s, f) <= Sum(s, g)
    decreases s
  {
    if s != {} {
      var k :| k in s;
      SumPick(s, f, k);
      SumPick(s, g, k);
      SumAtMost(s - {k}, f, g);
    }
  }

  lemma SumAdd<K>(s: set<K>, f: map<K, int>, k: K)
    requires s <= f.Keys && k in f && k !in s
    ensures Sum(s + {k}, f) == Sum(s, f) + f[k]
  {
    SumPick(s + {k}, f, k);
    assert s + {k} - {k} == s;
  }

  /** A union counts what is shared once. */
  lemma {:induction false} SumUnion<K>(a: set<K>, b: set<K>, f: map<K, int>)
    requires a <= f.Keys && b <= f.Keys
    ensures Sum(a + b, f) + Sum(a * b, f) == Sum(a, f) + Sum(b, f)
    decreases b
  {
    if b == {} {
      assert a + b == a && a * b == {};
    } else {
      var k :| k in b;
      var c := b - {k};
      SumUnion(a, c, f);
      SumPick(b, f, k);
      if k in a {
        assert a + b == a + c && a * b == a * c + {k};
        SumAdd(a * c, f, k);
      } else {
        assert a + b == a + c + {k} && a * b == a * c;
        SumAdd(a + c, f, k);
      }
    }
  }

  /** A sum of non-negative terms is zero exactly when every term is. */
  lemma {:induction false} SumZeroExactly<K>(s: set<K>, f: map<K, int>)
    requires s <= f.Keys && forall k :: k in s ==> f[k] >= 0
    ensures Sum(s, f) >= 0
    ensures Sum(s, f) == 0 <==> forall k :: k in s ==> f[k] == 0
    decreases s
  {
    if s != {} {
      var k :| k in s;
      SumPick(s, f, k);
      SumZeroExactly(s - {k}, f);
      assert forall j :: j in s <==> j == k || j in s - {k};
    }
  }

  /** Bounded term by term, two sums are equal exactly when all their terms are. */
  lemma {:induction false} SumEqualExactly<K>(s: set<K>, f: map<K, int>, g: map<K, int>)
    requires s <= f.Keys && s <= g.Keys && forall k :: k in s ==> f[k] <= g[k]
    ensures Sum(s, f) == Sum(s, g) <==> forall k :: k in s ==> f[k] == g[k]
    decreases s
  {
    if s != {} {
      var k :| k in s;
      SumPick(s, f, k);
      SumPick(s, g, k);
      SumAtMost(s - {k}, f, g);
      SumEqualExactly(s - {k}, f, g);
      assert forall j :: j in s <==> j == k || j in s - {k};
    }
  }
}
