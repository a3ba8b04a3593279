/**
 Pure helpers on id-keyed tables and on the id lists that students hold.
 */
module Tables {

  /** No id occurs twice in `s`. */
  predicate NoDuplicates(s: seq<int>)
  {
    forall i, j :: 0 <= i < j < |s| ==> s[i] != s[j]
  }

  /** The members of `keys` in the range [lo, hi), in ascending order. */
  function OrderedKeys(keys: set<int>, lo: int, hi: int): (r: seq<int>)
    ensures forall i :: 0 <= i < |r| ==> r[i] in keys && lo <= r[i] < hi
    ensures forall i, j :: 0 <= i < j < |r| ==> r[i] < r[j]
    ensures forall k :: k in keys && lo <= k < hi ==> k in r
    decreases hi - lo
  {
    if lo >= hi then []
    else if lo in keys then [lo] + OrderedKeys(keys, lo + 1, hi)
    else OrderedKeys(keys, lo + 1, hi)
  }

  /**
   The rows of table `m` whose keys lie in [lo, hi), in ascending key
   order: the row at position i is stored under the i-th such key, and
   every row in the range is listed.
   */
  function OrderedValues<T>(m: map<int, T>, lo: int, hi: int): (r: seq<T>)
    ensures |r| == |OrderedKeys(m.Keys, lo, hi)|
    ensures forall i :: 0 <= i < |r| ==> r[i] == m[OrderedKeys(m.Keys, lo, hi)[i]]
    ensures forall k :: k in m && lo <= k < hi ==> m[k] in r
  {
    var ids := OrderedKeys(m.Keys, lo, hi);
    var r := seq(|ids|, i requires 0 <= i < |ids| => m[ids[i]]);
    assert forall k :: k in m && lo <= k < hi ==> m[k] in r by {
      forall k | k in m && lo <= k < hi ensures m[k] in r {
        var i :| 0 <= i < |ids| && ids[i] == k;
        assert r[i] == m[k];
      }
    }
    r
  }

  /** `s` with every occurrence of `x` dropped; the other ids keep their order. */
  function Without(s: seq<int>, x: int): (r: seq<int>)
    ensures x !in r
    ensures forall y :: y in r <==> y in s && y != x
    ensures NoDuplicates(s) ==> NoDuplicates(r)
    ensures x !in s ==> r == s
    ensures |r| <= |s|
  {
    if s == [] then []
    else if s[0] == x then Without(s[1..], x)
    else
      var rest := Without(s[1..], x);
      assert NoDuplicates(s) ==> s[0] !in s[1..] && NoDuplicates(s[1..]) by {
        if NoDuplicates(s) {
          forall k | 0 <= k < |s| - 1 ensures s[1..][k] != s[0] {
            assert s[1..][k] == s[k + 1];
          }
        }
      }
      [s[0]] + rest
  }
}
