/** Python's ordering of strings and the ascending listing `sorted` builds from it. */
module StringOrder {

  /** Python's `a < b` on strings: the first differing character decides by its
      code, and a proper prefix comes first. */
  predicate Below(a: string, b: string)
    decreases |a|
  {
    if |a| == 0 then |b| > 0
    else if |b| == 0 then false
    else if a[0] != b[0] then a[0] < b[0]
    else Below(a[1..], b[1..])
  }

  lemma {:induction false} BelowIrreflexive(a: string)
    ensures !Below(a, a)
    decreases |a|
  {
    if |a| > 0 {
      BelowIrreflexive(a[1..]);
    }
  }

  lemma {:induction false} BelowTransitive(a: string, b: string, c: string)
    requires Below(a, b) && Below(b, c)
    ensures Below(a, c)
    decreases |a|
  {
    if |a| > 0 && a[0] == b[0] && b[0] == c[0] {
      BelowTransitive(a[1..], b[1..], c[1..]);
    }
  }

  /** Any two different strings are ordered one way or the other. */
  lemma {:induction false} BelowTotal(a: string, b: string)
    ensures a == b || Below(a, b) || Below(b, a)
    decreases |a|
  {
    if |a| > 0 && |b| > 0 && a[0] == b[0] {
      BelowTotal(a[1..], b[1..]);
      if a[1..] == b[1..] {
        assert a == [a[0]] + a[1..] && b == [b[0]] + b[1..];
      }
    }
  }

  lemma BelowAsymmetric(a: string, b: string)
    requires Below(a, b)
    ensures !Below(b, a)
  {
    if Below(b, a) {
      BelowTransitive(a, b, a);
      BelowIrreflexive(a);
    }
  }

  /** Ascending without repetition. */
  predicate StrictlySorted(s: seq<string>) {
    forall i, j :: 0 <= i < j < |s| ==> Below(s[i], s[j])
  }

  /** Places `k` into an ascending listing, keeping it ascending; a string
      already listed is not listed twice. */
  function Insert(s: seq<string>, k: string): (r: seq<string>)
    requires StrictlySorted(s)
    ensures StrictlySorted(r)
    ensures forall x :: x in r <==> x in s || x == k
    ensures k in s ==> |r| == |s|
    ensures k !in s ==> |r| == |s| + 1
  {
    if |s| == 0 then [k]
    else if k == s[0] then s
    else if Below(k, s[0]) then
      assert forall j :: 0 < j < |s| ==> Below(k, s[j]) by {
        forall j | 0 < j < |s| {
          BelowTransitive(k, s[0], s[j]);
        }
      }
      BelowIrreflexive(k);
      [k] + s
    else
      BelowTotal(k, s[0]);
      var tail := Insert(s[1..], k);
      assert s == [s[0]] + s[1..];
      forall j | 0 <= j < |tail|
        ensures Below(s[0], tail[j])
      {
        var x := tail[j];
        if x != k {
          assert x in s[1..];
          var m :| 0 <= m < |s| - 1 && s[1..][m] == x;
          assert s[m + 1] == x;
        }
      }
      [s[0]] + tail
  }

  /** Two ascending listings of the same strings are the same listing: there
      is only one way to sort a set of strings. */
  lemma {:induction false} SortedUnique(a: seq<string>, b: seq<string>)
    requires StrictlySorted(a) && StrictlySorted(b)
    requires forall x :: x in a <==> x in b
    ensures a == b
  {
    assert |a| == 0 ==> |b| == 0 by {
      if |b| > 0 {
        assert b[0] in b;
      }
    }
    if |a| > 0 {
      assert a[0] in a;
      var j :| 0 <= j < |b| && b[j] == a[0];
      assert b[0] in b;
      var i :| 0 <= i < |a| && a[i] == b[0];
      if i > 0 && j > 0 {
        BelowAsymmetric(a[0], b[0]);
        assert false;
      }
      assert a[0] == b[0];
      BelowIrreflexive(a[0]);
      forall x | x in a[1..]
        ensures x in b[1..]
      {
        var m :| 0 <= m < |a| - 1 && a[1..][m] == x;
        assert Below(a[0], a[m + 1]);
        assert x in a;
        var n :| 0 <= n < |b| && b[n] == x;
        assert b[1..][n - 1] == x;
      }
      forall x | x in b[1..]
        ensures x in a[1..]
      {
        var m :| 0 <= m < |b| - 1 && b[1..][m] == x;
        assert Below(b[0], b[m + 1]);
        assert x in b;
        var n :| 0 <= n < |a| && a[n] == x;
        assert a[1..][n - 1] == x;
      }
      SortedUnique(a[1..], b[1..]);
      assert a == [a[0]] + a[1..] && b == [b[0]] + b[1..];
    }
  }

  /** `sorted(keys)`: the strings of `keys` in ascending order. */
  method Sorted(keys: set<string>) returns (r: seq<string>)
    ensures StrictlySorted(r)
    ensures forall x :: x in r <==> x in keys
    ensures |r| == |keys|
  {
    r := [];
    var remaining := keys;
    while remaining != {}
      invariant remaining <= keys
      invariant StrictlySorted(r)
      invariant forall x :: x in r <==> x in keys && x !in remaining
      invariant |r| + |remaining| == |keys|
      decreases |remaining|
    {
      var k :| k in remaining;
      r := Insert(r, k);
      remaining := remaining - {k};
    }
  }
}
