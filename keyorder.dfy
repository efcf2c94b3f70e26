/**
 * The enumeration order of a JavaScript object with integer keys:
 * `Object.values` and `Object.entries` visit such keys in ascending order.
 */
module KeyOrder {

  /** A non-empty key set has a member. */
  lemma HasMember(s: set<int>)
    requires s != {}
    ensures exists x :: x in s
  {
    if forall x :: x !in s {
      assert false;
    }
  }

  lemma {:induction false} MinExists(s: set<int>)
    requires s != {}
    ensures exists k :: k in s && forall j :: j in s ==> k <= j
    decreases |s|
  {
    HasMember(s);
    var x :| x in s;
    var rest := s - {x};
    forall j | j in s
      ensures j == x || j in rest
    {
    }
    if rest == {} {
      assert forall j :: j in s ==> j == x;
    } else {
      MinExists(rest);
      var k :| k in rest && forall j :: j in rest ==> k <= j;
      LesserIsLeast(s, x, k);
    }
  }

  /** If `k` is least in `s` apart from `x`, the lesser of `x` and `k` is least in `s`. */
  lemma LesserIsLeast(s: set<int>, x: int, k: int)
    requires x in s && k in s
    requires forall j :: j in s && j != x ==> k <= j
    ensures exists m :: m in s && forall j :: j in s ==> m <= j
  {
    if x < k {
      assert forall j :: j in s ==> x <= j;
    } else {
      assert forall j :: j in s ==> k <= j;
    }
  }

  /** The least key of a non-empty key set. */
  function MinKey(s: set<int>): (k: int)
    requires s != {}
    ensures k in s && forall j :: j in s ==> k <= j
  {
    MinExists(s);
    var k :| k in s && forall j :: j in s ==> k <= j; k
  }

  /** The keys of `s`, ascending, each once. */
  function SortedKeys(s: set<int>): (ks: seq<int>)
    ensures |ks| == |s|
    ensures forall k :: k in s <==> k in ks
    ensures forall i, j :: 0 <= i < j < |ks| ==> ks[i] < ks[j]
    decreases |s|
  {
    if s == {} then []
    else
      var k := MinKey(s);
      var rest := SortedKeys(s - {k});
      assert forall j :: 0 <= j < |rest| ==> rest[j] in s - {k} && k < rest[j];
      [k] + rest
  }

  /** `Object.values(m)`: the entries of `m` in ascending key order. */
  function Values<V(!new)>(m: map<int, V>): (vs: seq<V>)
    ensures |vs| == |m|
    ensures forall i :: 0 <= i < |vs| ==> SortedKeys(m.Keys)[i] in m && vs[i] == m[SortedKeys(m.Keys)[i]]
    ensures forall v :: v in vs <==> exists k :: k in m && m[k] == v
  {
    var ks := SortedKeys(m.Keys);
    KeysOfMap(m, ks);
    var vs := seq(|ks|, i requires 0 <= i < |ks| => m[ks[i]]);
    assert |vs| == |ks| && forall i :: 0 <= i < |ks| ==> vs[i] == m[ks[i]];
    ValuesCover(m, ks, vs);
    vs
  }

  /** The ascending keys of a map are its keys, as many as it has entries. */
  lemma KeysOfMap<V>(m: map<int, V>, ks: seq<int>)
    requires ks == SortedKeys(m.Keys)
    ensures |ks| == |m|
    ensures forall k :: k in m <==> k in ks
    ensures forall i :: 0 <= i < |ks| ==> ks[i] in m
  {
    assert |m.Keys| == |m|;
  }

  /** Visiting every key once yields exactly the values of the map. */
  lemma ValuesCover<V>(m: map<int, V>, ks: seq<int>, vs: seq<V>)
    requires forall k :: k in m <==> k in ks
    requires |vs| == |ks| && forall i :: 0 <= i < |ks| ==> ks[i] in m && vs[i] == m[ks[i]]
    ensures forall v :: v in vs <==> exists k :: k in m && m[k] == v
  {
    forall v | v in vs
      ensures exists k :: k in m && m[k] == v
    {
      var i :| 0 <= i < |vs| && vs[i] == v;
      var k := ks[i];
      assert k in m && m[k] == v;
    }
    forall v | exists k :: k in m && m[k] == v
      ensures v in vs
    {
      var k :| k in m && m[k] == v;
      assert k in ks;
      var i :| 0 <= i < |ks| && ks[i] == k;
      assert vs[i] == v;
    }
  }
}
