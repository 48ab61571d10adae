/**
 Names in lexicographic order, without repetition.
 */
module NameOrder {
  /** Lexicographic order. */
  predicate Before(a: string, b: string) {
    b != "" && (a == "" || a[0] < b[0] || (a[0] == b[0] && Before(a[1..], b[1..])))
  }

  lemma {:induction false} BeforeIsTotal(a: string, b: string)
    ensures a == b || Before(a, b) || Before(b, a)
    ensures !(Before(a, b) && Before(b, a)) && !(a == b && Before(a, b))
  {
    if a != "" && b != "" {
      BeforeIsTotal(a[1..], b[1..]);
      if a[0] == b[0] && a[1..] == b[1..] { assert a == [a[0]] + a[1..] && b == [b[0]] + b[1..]; }
    }
  }

  lemma {:induction false} BeforeIsTransitive(a: string, b: string, c: string)
    requires Before(a, b) && Before(b, c)
    ensures Before(a, c)
  {
    if a != "" && a[0] == b[0] && b[0] == c[0] { BeforeIsTransitive(a[1..], b[1..], c[1..]); }
  }

  /** The names agree up to place `n`, where the first ends or has the smaller character. */
  predicate PrecedesAt(a: string, b: string, n: int) {
    0 <= n <= |a| && n < |b| && a[..n] == b[..n] && (n < |a| ==> a[n] < b[n])
  }

  lemma PrecedesLater(a: string, b: string, n: nat)
    requires a != "" && b != "" && a[0] == b[0]
    ensures PrecedesAt(a, b, n + 1) <==> PrecedesAt(a[1..], b[1..], n)
  {
    if n < |a| && n < |b| {
      assert a[..n + 1] == [a[0]] + a[1..][..n] && b[..n + 1] == [b[0]] + b[1..][..n];
      assert a[1..][..n] == a[..n + 1][1..] && b[1..][..n] == b[..n + 1][1..];
    }
  }

  lemma {:induction false} BeforeWrittenOut(a: string, b: string)
    ensures Before(a, b) <==> exists n :: PrecedesAt(a, b, n)
  {
    forall n | PrecedesAt(a, b, n) && n > 0 ensures a[0] == b[0] { assert a[..n][0] == b[..n][0]; }
    if b != "" && a != "" && a[0] == b[0] {
      BeforeWrittenOut(a[1..], b[1..]);
      if n :| PrecedesAt(a[1..], b[1..], n) { PrecedesLater(a, b, n); }
      if n :| PrecedesAt(a, b, n) {
        assert n > 0;
        PrecedesLater(a, b, n - 1);
      }
    } else if b != "" && (a == "" || a[0] < b[0]) {
      assert PrecedesAt(a, b, 0);
    }
  }

  predicate Sorted(plan: seq<string>) {
    forall i, j :: 0 <= i < j < |plan| ==> Before(plan[i], plan[j])
  }

  method Insert(plan: seq<string>, name: string) returns (r: seq<string>)
    requires Sorted(plan) && name !in plan
    ensures Sorted(r) && forall x :: x in r <==> x in plan || x == name
  {
    var k := 0;
    while k < |plan| && Before(plan[k], name)
      invariant 0 <= k <= |plan|
      invariant forall i :: 0 <= i < k ==> Before(plan[i], name)
    {
      k := k + 1;
    }
    forall j | k <= j < |plan| ensures Before(name, plan[j]) {
      BeforeIsTotal(plan[k], name);
      if j > k { BeforeIsTransitive(name, plan[k], plan[j]); }
    }
    r := plan[..k] + [name] + plan[k..];
  }

  /** There is only one way to sort. */
  lemma {:induction false} SortedIsDetermined(p: seq<string>, q: seq<string>)
    requires Sorted(p) && Sorted(q) && forall x :: x in p <==> x in q
    ensures p == q
    decreases |p|
  {
    assert q != [] ==> q[0] in q;
    if p != [] {
      assert p[0] in p;
      assert q != [] && q[0] in q;
      FirstIsLeast(p, q[0]);
      FirstIsLeast(q, p[0]);
      BeforeIsTotal(p[0], q[0]);
      forall x ensures x in p[1..] <==> x in q[1..] {
        TailMembership(p, x);
        TailMembership(q, x);
      }
      SortedIsDetermined(p[1..], q[1..]);
      assert p == [p[0]] + p[1..] && q == [q[0]] + q[1..];
    }
  }

  lemma FirstIsLeast(p: seq<string>, x: string)
    requires Sorted(p) && x in p
    ensures x == p[0] || Before(p[0], x)
  {
  }

  lemma TailMembership(p: seq<string>, x: string)
    requires Sorted(p) && p != []
    ensures x in p[1..] <==> x in p && x != p[0]
  {
    if x in p[1..] { BeforeIsTotal(p[0], x); }
  }

  ghost predicate Sorts(names: set<string>, r: seq<string>) {
    Sorted(r) && forall x :: x in r <==> x in names
  }

  method SortNames(names: set<string>) returns (r: seq<string>)
    ensures Sorts(names, r)
  {
    r := [];
    var todo := names;
    while todo != {}
      invariant todo <= names && Sorts(names - todo, r)
      decreases todo
    {
      var name :| name in todo;
      r := Insert(r, name);
      todo := todo - {name};
    }
  }
}
