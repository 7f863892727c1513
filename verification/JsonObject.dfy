/**
 Objects and arrays of the JSON library: growing arrays changed in place. An object is an
 array of pairs; as long as it is only changed by Set, its keys are distinct and it is a map.
 */
module JsonObject {
  import opened Basics
  import opened JsonValue

  ghost predicate DistinctKeys(ps: seq<Pair>) {
    forall i, j :: 0 <= i < j < |ps| ==> ps[i].key != ps[j].key
  }

  ghost function Keys(ps: seq<Pair>): set<seq<int>> {
    set i | 0 <= i < |ps| :: ps[i].key
  }

  /** The value of the first pair of the given key. */
  ghost function Lookup(ps: seq<Pair>, key: seq<int>): Option<Json> {
    if ps == [] then None else if ps[0].key == key then Some(ps[0].value) else Lookup(ps[1..], key)
  }

  ghost function AsMap(ps: seq<Pair>): map<seq<int>, Json> {
    map k | k in Keys(ps) && Lookup(ps, k).Some? :: Lookup(ps, k).value
  }

  lemma {:induction false} LookupAt(ps: seq<Pair>, i: nat, key: seq<int>)
    requires i <= |ps| && forall j :: 0 <= j < i ==> ps[j].key != key
    ensures i == |ps| ==> Lookup(ps, key) == None
    ensures i < |ps| && ps[i].key == key ==> Lookup(ps, key) == Some(ps[i].value)
  {
    if i > 0 {
      LookupAt(ps[1..], i - 1, key);
    }
  }

  /** With distinct keys, Lookup finds exactly the pairs there are. */
  lemma LookupIff(ps: seq<Pair>, key: seq<int>, v: Json)
    requires DistinctKeys(ps)
    ensures Lookup(ps, key) == Some(v) <==> exists i :: 0 <= i < |ps| && ps[i] == Pair(key, v)
    ensures Lookup(ps, key) == None <==> !HasKey(ps, key)
  {
    if i :| 0 <= i < |ps| && ps[i].key == key {
      LookupAt(ps, i, key);
      assert ps[i] == Pair(key, ps[i].value);
    } else {
      LookupAt(ps, |ps|, key);
    }
  }

  /** Two arrays of distinct keys that hold the same pairs are the same map. */
  lemma SamePairsSameMap(ps: seq<Pair>, m: map<seq<int>, Json>)
    requires DistinctKeys(ps)
    requires forall i :: 0 <= i < |ps| ==> ps[i].key in m && m[ps[i].key] == ps[i].value
    requires forall k :: k in m ==> HasKey(ps, k)
    ensures AsMap(ps) == m
  {
    forall k | HasKey(ps, k)
      ensures k in AsMap(ps) && k in m && AsMap(ps)[k] == m[k]
    {
      var i :| 0 <= i < |ps| && ps[i].key == k;
      LookupAt(ps, i, k);
    }
    forall k | k in AsMap(ps)
      ensures HasKey(ps, k)
    {
    }
  }

  lemma AsMapHas(ps: seq<Pair>, k: seq<int>)
    requires DistinctKeys(ps)
    ensures k in AsMap(ps) <==> HasKey(ps, k)
    ensures forall i :: 0 <= i < |ps| ==> ps[i].key in AsMap(ps) && AsMap(ps)[ps[i].key] == ps[i].value
  {
    forall i | 0 <= i < |ps|
      ensures ps[i].key in AsMap(ps) && AsMap(ps)[ps[i].key] == ps[i].value
    {
      LookupAt(ps, i, ps[i].key);
    }
  }

  class ObjectNode {
    var pairs: seq<Pair>

    ghost predicate Valid()
      reads this
    {
      DistinctKeys(pairs)
    }

    ghost function Map(): map<seq<int>, Json>
      reads this
    {
      AsMap(pairs)
    }

    constructor ()
      ensures Valid() && pairs == [] && Map() == map[]
    {
      pairs := [];
    }

    method Get(key: seq<int>) returns (r: Option<Json>)
      requires Valid()
      ensures r == if key in Map() then Some(Map()[key]) else None
      ensures r.Some? <==> HasKey(pairs, key)
    {
      AsMapHas(pairs, key);
      for i := 0 to |pairs|
        invariant forall j :: 0 <= j < i ==> pairs[j].key != key
      {
        if pairs[i].key == key {
          return Some(pairs[i].value);
        }
      }
      return None;
    }

    /** Sets, replaces or, without a value, deletes the attribute. The last pair takes the place
        of a deleted one; a new one goes to the end. */
    method Set(key: seq<int>, value: Option<Json>)
      requires Valid()
      modifies this
      ensures Valid()
      ensures Map() == if value.Some? then old(Map())[key := value.value] else old(Map()) - {key}
      ensures !HasKey(old(pairs), key) ==>
                pairs == old(pairs) + if value.Some? then [Pair(key, value.value)] else []
    {
      ghost var ps, m := pairs, Map();
      for i := 0 to |pairs|
        invariant pairs == ps && forall j :: 0 <= j < i ==> ps[j].key != key
      {
        if pairs[i].key == key {
          if value.Some? {
            pairs := pairs[i := Pair(key, value.value)];
            Replaced(ps, i, value.value, pairs);
          } else {
            pairs := pairs[i := pairs[|pairs| - 1]];
            pairs := pairs[..|pairs| - 1];
            Removed(ps, i, pairs);
          }
          return;
        }
      }
      if value.Some? {
        pairs := pairs + [Pair(key, value.value)];
      }
      Added(ps, key, value, pairs);
    }
  }

  lemma Replaced(ps: seq<Pair>, i: nat, v: Json, qs: seq<Pair>)
    requires DistinctKeys(ps) && i < |ps| && qs == ps[i := Pair(ps[i].key, v)]
    ensures DistinctKeys(qs) && AsMap(qs) == AsMap(ps)[ps[i].key := v]
  {
    var m := AsMap(ps)[ps[i].key := v];
    AsMapHas(ps, ps[i].key);
    hide AsMap;
    forall k | k in m
      ensures HasKey(qs, k)
    {
      AsMapHas(ps, k);
      var j :| 0 <= j < |ps| && ps[j].key == k;
      assert qs[j].key == k;
    }
    SamePairsSameMap(qs, m);
  }

  lemma Removed(ps: seq<Pair>, i: nat, qs: seq<Pair>)
    requires DistinctKeys(ps) && i < |ps| && qs == ps[i := ps[|ps| - 1]][..|ps| - 1]
    ensures DistinctKeys(qs) && AsMap(qs) == AsMap(ps) - {ps[i].key}
  {
    var m := AsMap(ps) - {ps[i].key};
    AsMapHas(ps, ps[i].key);
    hide AsMap;
    assert forall j :: 0 <= j < |qs| ==> qs[j] == ps[if j == i then |qs| else j];
    forall k | k in m
      ensures HasKey(qs, k)
    {
      AsMapHas(ps, k);
      var j :| 0 <= j < |ps| && ps[j].key == k;
      assert qs[if j == |qs| then i else j].key == k;
    }
    SamePairsSameMap(qs, m);
  }

  lemma Added(ps: seq<Pair>, key: seq<int>, value: Option<Json>, qs: seq<Pair>)
    requires DistinctKeys(ps) && forall j :: 0 <= j < |ps| ==> ps[j].key != key
    requires qs == if value.Some? then ps + [Pair(key, value.value)] else ps
    ensures DistinctKeys(qs)
    ensures AsMap(qs) == if value.Some? then AsMap(ps)[key := value.value] else AsMap(ps) - {key}
  {
    var m := if value.Some? then AsMap(ps)[key := value.value] else AsMap(ps) - {key};
    AsMapHas(ps, key);
    hide AsMap;
    forall k | k in m
      ensures HasKey(qs, k)
    {
      AsMapHas(ps, k);
      if k == key {
        assert qs[|ps|].key == k;
      } else {
        var j :| 0 <= j < |ps| && ps[j].key == k;
        assert qs[j].key == k;
      }
    }
    SamePairsSameMap(qs, m);
  }
}
