/** Ordered views of a finite set of integer keys: what `ORDER BY timestamp`
    and `min()`/`max()` over a primary-key column return. */
module Keys {

  predicate StrictlyIncreasing(s: seq<int>) {
    forall i, j :: 0 <= i < j < |s| ==> s[i] < s[j]
  }

  /** A set that is not empty has an element. */
  lemma NonEmptyHasElement(s: set<int>)
    requires s != {}
    ensures exists x :: x in s
  {
    if forall x :: x !in s {
      assert false;
    }
  }

  lemma {:induction false} MinExists(s: set<int>)
    requires s != {}
    ensures exists m :: m in s && forall k :: k in s ==> m <= k
  {
    NonEmptyHasElement(s);
    var x :| x in s;
    if s == {x} {
      assert forall k :: k in s ==> x <= k;
    } else {
      var rest := s - {x};
      MinExists(rest);
      var m :| m in rest && forall k :: k in rest ==> m <= k;
      var best := if x < m then x else m;
      forall k | k in s ensures best <= k {
        if k != x {
          assert k in rest;
        }
      }
      assert best in s;
    }
  }

  lemma {:induction false} MaxExists(s: set<int>)
    requires s != {}
    ensures exists m :: m in s && forall k :: k in s ==> k <= m
  {
    NonEmptyHasElement(s);
    var x :| x in s;
    if s == {x} {
      assert forall k :: k in s ==> k <= x;
    } else {
      var rest := s - {x};
      MaxExists(rest);
      var m :| m in rest && forall k :: k in rest ==> k <= m;
      var best := if x > m then x else m;
      forall k | k in s ensures k <= best {
        if k != x {
          assert k in rest;
        }
      }
      assert best in s;
    }
  }

  /** `SELECT min(key)`. */
  function SetMin(s: set<int>): (m: int)
    requires s != {}
    ensures m in s && forall k :: k in s ==> m <= k
  {
    MinExists(s);
    var m :| m in s && forall k :: k in s ==> m <= k;
    m
  }

  /** `SELECT max(key)`. */
  function SetMax(s: set<int>): (m: int)
    requires s != {}
    ensures m in s && forall k :: k in s ==> k <= m
  {
    MaxExists(s);
    var m :| m in s && forall k :: k in s ==> k <= m;
    m
  }

  /** `SELECT key ... ORDER BY key`: every key exactly once, ascending. */
  function SortedKeys(s: set<int>): (r: seq<int>)
    ensures StrictlyIncreasing(r)
    ensures forall i :: 0 <= i < |r| ==> r[i] in s
    ensures forall x :: x in s ==> x in r
    ensures |r| == |s|
    decreases |s|
  {
    if s == {} then []
    else
      var m := SetMin(s);
      var rest := SortedKeys(s - {m});
      var r := [m] + rest;
      assert |s - {m}| == |s| - 1;
      forall i | 0 <= i < |r| ensures r[i] in s {
        if i > 0 {
          assert r[i] == rest[i - 1];
        }
      }
      forall i, j | 0 <= i < j < |r| ensures r[i] < r[j] {
        assert r[j] == rest[j - 1];
        assert rest[j - 1] in s - {m};
        if i > 0 {
          assert r[i] == rest[i - 1];
        }
      }
      forall x | x in s ensures x in r {
        if x != m {
          assert x in s - {m};
          assert x in rest;
        }
      }
      r
  }

}
