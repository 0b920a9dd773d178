/** Names in the order in which std::sort puts strings. */
module Names {

  /** The lexicographic order. */
  predicate Before(a: string, b: string) {
    |b| > 0 && (|a| == 0 || a[0] < b[0] || (a[0] == b[0] && Before(a[1..], b[1..])))
  }

  lemma {:induction false} BeforeIsStrict(a: string, b: string)
    ensures !(Before(a, b) && Before(b, a)) && !Before(a, a)
  {
    if |a| > 0 { BeforeIsStrict(a[1..], if |b| > 0 then b[1..] else b); }
  }

  lemma {:induction false} BeforeIsTransitive(a: string, b: string, c: string)
    requires Before(a, b) && Before(b, c)
    ensures Before(a, c)
  {
    if |a| > 0 && a[0] == b[0] == c[0] { BeforeIsTransitive(a[1..], b[1..], c[1..]); }
  }

  lemma {:induction false} BeforeIsTotal(a: string, b: string)
    ensures a == b || Before(a, b) || Before(b, a)
  {
    if |a| > 0 && |b| > 0 && a[0] == b[0] {
      BeforeIsTotal(a[1..], b[1..]);
      if a[1..] == b[1..] { assert a == [a[0]] + a[1..] && b == [b[0]] + b[1..]; }
    }
  }

  /** Strictly: no name twice. */
  ghost predicate InOrder(names: seq<string>) {
    forall i, j :: 0 <= i < j < |names| ==> Before(names[i], names[j])
  }

  /** In front of the first name that comes after it. */
  function Insert(x: string, names: seq<string>): (r: seq<string>)
    ensures |r| == |names| + 1 && forall y :: y in r <==> y == x || y in names
  {
    if |names| == 0 || Before(x, names[0]) then [x] + names
    else
      assert names == [names[0]] + names[1..];
      [names[0]] + Insert(x, names[1..])
  }

  lemma InOrderCons(x: string, names: seq<string>)
    requires InOrder(names) && forall y :: y in names ==> Before(x, y)
    ensures InOrder([x] + names)
  {
    hide Before;
    var r := [x] + names;
    forall i, j | 0 <= i < j < |r| ensures Before(r[i], r[j]) { assert r[j] == names[j - 1]; }
  }

  lemma {:induction false} InsertKeepsOrder(x: string, names: seq<string>)
    requires InOrder(names) && x !in names
    ensures InOrder(Insert(x, names))
  {
    hide Before;
    if |names| > 0 {
      if Before(x, names[0]) {
        forall y | y in names ensures Before(x, y) {
          if y != names[0] { BeforeIsTransitive(x, names[0], y); }
        }
        InOrderCons(x, names);
      } else {
        BeforeIsTotal(x, names[0]);
        InsertKeepsOrder(x, names[1..]);
        forall y | y in Insert(x, names[1..]) ensures Before(names[0], y) {}
        InOrderCons(names[0], Insert(x, names[1..]));
      }
    } else {
      InOrderCons(x, names);
    }
  }

  ghost predicate Distinct(names: seq<string>) {
    forall i, j :: 0 <= i < j < |names| ==> names[i] != names[j]
  }

  /** std::sort, for names that differ. */
  function Sorted(names: seq<string>): (r: seq<string>)
    ensures |r| == |names| && forall y :: y in r <==> y in names
  {
    if |names| == 0 then []
    else
      assert names == [names[0]] + names[1..];
      Insert(names[0], Sorted(names[1..]))
  }

  lemma {:induction false} SortedIsInOrder(names: seq<string>)
    requires Distinct(names)
    ensures InOrder(Sorted(names))
  {
    if |names| > 0 {
      SortedIsInOrder(names[1..]);
      InsertKeepsOrder(names[0], Sorted(names[1..]));
    }
  }

  /** There is only one list of the same names in order. */
  lemma {:induction false} OrderIsUnique(a: seq<string>, b: seq<string>)
    requires InOrder(a) && InOrder(b) && forall y :: y in a <==> y in b
    ensures a == b
  {
    BothEmpty(a, b);
    if |a| > 0 {
      assert a[0] in b && b[0] in a;
      FirstIsFirst(a, b[0]);
      FirstIsFirst(b, a[0]);
      BeforeIsStrict(a[0], b[0]);
      RestIs(a);
      RestIs(b);
      hide Before;
      OrderIsUnique(a[1..], b[1..]);
      assert a == [a[0]] + a[1..] && b == [b[0]] + b[1..];
    }
  }

  lemma BothEmpty(a: seq<string>, b: seq<string>)
    requires forall y :: y in a <==> y in b
    ensures |a| == 0 <==> |b| == 0
  {
    if |a| > 0 { assert a[0] in b; }
    if |b| > 0 { assert b[0] in a; }
  }

  lemma FirstIsFirst(names: seq<string>, y: string)
    requires InOrder(names) && y in names
    ensures y == names[0] || Before(names[0], y)
  {
    hide Before;
  }

  lemma RestIs(names: seq<string>)
    requires InOrder(names) && |names| > 0
    ensures InOrder(names[1..]) && forall y :: y in names[1..] <==> y in names && y != names[0]
  {
    forall y | y in names[1..] ensures y != names[0] {
      BeforeIsStrict(names[0], y);
    }
    hide Before;
    assert names == [names[0]] + names[1..];
  }

  /** a ends where b goes on, or has the smaller character where they first differ. */
  ghost predicate ComesFirst(a: string, b: string) {
    || (|a| < |b| && b[..|a|] == a)
    || exists k :: 0 <= k < |a| && k < |b| && FirstDifference(a, b, k)
  }

  predicate FirstDifference(a: string, b: string, k: nat)
    requires k < |a| && k < |b|
  {
    a[..k] == b[..k] && a[k] < b[k]
  }

  lemma {:induction false} BeforeMeans(a: string, b: string)
    ensures Before(a, b) <==> ComesFirst(a, b)
  {
    if |a| > 0 && |b| > 0 {
      if a[0] == b[0] {
        BeforeMeans(a[1..], b[1..]);
        SameFirst(a, b);
      } else {
        if a[0] < b[0] { assert FirstDifference(a, b, 0); }
        assert |a| < |b| ==> b[..|a|][0] == b[0];
        assert forall k :: 0 < k < |a| && k < |b| ==> a[..k][0] == a[0] && b[..k][0] == b[0];
      }
    }
  }

  lemma SameFirst(a: string, b: string)
    requires |a| > 0 && |b| > 0 && a[0] == b[0]
    ensures ComesFirst(a, b) <==> ComesFirst(a[1..], b[1..])
  {
    assert a == [a[0]] + a[1..] && b == [b[0]] + b[1..];
    forall k | 0 < k < |a| && k < |b|
      ensures FirstDifference(a, b, k) <==> FirstDifference(a[1..], b[1..], k - 1)
    {
      assert a[..k] == [a[0]] + a[1..][..k - 1] && b[..k] == [b[0]] + b[1..][..k - 1];
    }
    if |a| < |b| { assert b[..|a|] == [b[0]] + b[1..][..|a| - 1]; }
    if k :| 0 <= k < |a[1..]| && k < |b[1..]| && FirstDifference(a[1..], b[1..], k) {
      assert FirstDifference(a, b, k + 1);
    }
  }
}
