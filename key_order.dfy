/**
 * `Object.keys(param).sort()`: the property names of an object in ascending
 * code-unit order.  A JavaScript object lists its keys in insertion order;
 * sorting makes the result depend on the key set alone.
 */
module KeyOrder {
  import opened JsStrings

  predicate StrictlySorted(s: seq<JsString>)
  {
    forall i, j :: 0 <= i < j < |s| ==> Less(s[i], s[j])
  }

  predicate IsLeast(m: JsString, keys: set<JsString>)
  {
    m in keys && forall x :: x in keys && x != m ==> Less(m, x)
  }

  lemma {:induction false} LeastExists(keys: set<JsString>)
    requires keys != {}
    ensures exists m :: IsLeast(m, keys)
    decreases |keys|
  {
    var y :| y in keys;
    if keys == {y} {
      assert IsLeast(y, keys);
    } else {
      LeastExists(keys - {y});
      var m :| IsLeast(m, keys - {y});
      if Less(m, y) {
        assert IsLeast(m, keys);
      } else {
        LessTotal(m, y);
        forall x | x in keys && x != y
          ensures Less(y, x)
        {
          if x != m {
            LessTransitive(y, m, x);
          }
        }
        assert IsLeast(y, keys);
      }
    }
  }

  lemma LeastUnique(keys: set<JsString>)
    ensures forall m1, m2 :: IsLeast(m1, keys) && IsLeast(m2, keys) ==> m1 == m2
  {
    forall m1, m2 | IsLeast(m1, keys) && IsLeast(m2, keys)
      ensures m1 == m2
    {
      if m1 != m2 {
        LessTransitive(m1, m2, m1);
        LessIrreflexive(m1);
      }
    }
  }

  /** The keys in ascending order, each exactly once. */
  function SortedKeys(keys: set<JsString>): (r: seq<JsString>)
    ensures StrictlySorted(r)
    ensures forall k :: k in r <==> k in keys
    ensures |r| == |keys|
    decreases |keys|
  {
    if keys == {} then []
    else
      LeastExists(keys);
      LeastUnique(keys);
      var m :| IsLeast(m, keys);
      assert |keys - {m}| == |keys| - 1;
      var rest := SortedKeys(keys - {m});
      ConsSorted(m, rest);
      [m] + rest
  }

  lemma ConsSorted(m: JsString, rest: seq<JsString>)
    requires StrictlySorted(rest)
    requires forall x :: x in rest ==> Less(m, x)
    ensures StrictlySorted([m] + rest)
  {
    forall i, j | 0 <= i < j < |rest| + 1
      ensures Less(([m] + rest)[i], ([m] + rest)[j])
    {
      assert rest[j - 1] in rest;
      if i > 0 {
        assert ([m] + rest)[i] == rest[i - 1];
      }
    }
  }

  /**
   * Sorting is independent of insertion order: any arrangement of the keys
   * that is strictly ascending is the one `SortedKeys` gives.
   */
  lemma {:induction false} SortedArrangementUnique(keys: set<JsString>, s: seq<JsString>)
    requires StrictlySorted(s)
    requires forall k :: k in s <==> k in keys
    ensures s == SortedKeys(keys)
    decreases |s|
  {
    if s == [] {
      assert keys == {};
    } else {
      var m := s[0];
      var tail := s[1..];
      assert s == [m] + tail;
      assert forall x :: x in tail ==> Less(m, x) by {
        forall x | x in tail
          ensures Less(m, x)
        {
          var j :| 0 <= j < |tail| && tail[j] == x;
          assert s[j + 1] == x;
        }
      }
      assert IsLeast(m, keys);
      LeastUnique(keys);
      assert m !in tail by {
        LessIrreflexive(m);
      }
      assert StrictlySorted(tail) by {
        forall i, j | 0 <= i < j < |tail|
          ensures Less(tail[i], tail[j])
        {
          assert tail[i] == s[i + 1] && tail[j] == s[j + 1];
        }
      }
      assert forall k :: k in tail <==> k in keys - {m};
      SortedArrangementUnique(keys - {m}, s[1..]);
    }
  }
}
