/** A map that iterates in insertion order: a list of entries beside an index of positions. */
module OrderedMaps {
  import opened Wrappers

  ghost function KeysOf<K, V>(entries: seq<(K, V)>): (keys: seq<K>)
    ensures |keys| == |entries| && forall i :: 0 <= i < |keys| ==> keys[i] == entries[i].0
  {
    seq(|entries|, i requires 0 <= i < |entries| => entries[i].0)
  }

  ghost predicate IsIndex<K, V>(entries: seq<(K, V)>, index: map<K, nat>) {
    && (forall i :: 0 <= i < |entries| ==> entries[i].0 in index && index[entries[i].0] == i)
    && (forall k :: k in index ==> index[k] < |entries| && entries[index[k]].0 == k)
  }

  /** Positions behind a removed entry move up by one. */
  function Shifted<K(==)>(index: map<K, nat>, key: K, pos: nat): map<K, nat> {
    map k | k in index && k != key :: if index[k] > pos then index[k] - 1 else index[k]
  }

  lemma ShiftedIsIndex<K, V>(entries: seq<(K, V)>, index: map<K, nat>, pos: nat)
    requires IsIndex(entries, index) && pos < |entries|
    ensures IsIndex(entries[..pos] + entries[pos + 1..], Shifted(index, entries[pos].0, pos))
  {
    var entries' := entries[..pos] + entries[pos + 1..];
    var index' := Shifted(index, entries[pos].0, pos);
    forall i | 0 <= i < |entries'|
      ensures entries'[i].0 in index' && index'[entries'[i].0] == i
    {
      var was := if i < pos then i else i + 1;
      assert entries'[i] == entries[was];
    }
    forall k | k in index'
      ensures index'[k] < |entries'| && entries'[index'[k]].0 == k
    {
      assert index[k] != pos;
    }
  }

  class OrderedMap<K(==), V> {
    var entries: seq<(K, V)>
    var index: map<K, nat>

    /** The index holds the position of every key, and of nothing else. */
    ghost predicate Valid()
      reads this
    {
      IsIndex(entries, index)
    }

    constructor ()
      ensures Valid() && entries == []
    {
      entries := [];
      index := map[];
    }

    /** The keys in insertion order. */
    ghost function Keys(): seq<K>
      reads this
    {
      KeysOf(entries)
    }

    /** The position of a key, if it is present. */
    method Find(key: K) returns (pos: Option<nat>)
      requires Valid()
      ensures pos.Some? <==> key in Keys()
      ensures pos.Some? <==> key in index
      ensures pos.Some? ==> pos.value < |entries| && entries[pos.value].0 == key
    {
      if key in index {
        assert Keys()[index[key]] == key;
        return Some(index[key]);
      }
      return None;
    }

    /** Overwrites in place, or appends. */
    method InsertOrAssign(key: K, value: V)
      requires Valid()
      modifies this
      ensures Valid()
      ensures key !in old(Keys()) ==> entries == old(entries) + [(key, value)]
      ensures key in old(Keys()) ==>
                exists i :: 0 <= i < |old(entries)| && old(entries)[i].0 == key
                         && entries == old(entries)[i := (key, value)]
    {
      var pos := Find(key);
      if pos.Some? {
        entries := entries[pos.value := (key, value)];
      } else {
        index := index[key := |entries|];
        entries := entries + [(key, value)];
      }
    }

    /** Appends if the key is absent, and says whether it did. */
    method Emplace(key: K, value: V) returns (inserted: bool)
      requires Valid()
      modifies this
      ensures Valid()
      ensures inserted <==> key !in old(Keys())
      ensures entries == old(entries) + if inserted then [(key, value)] else []
      ensures Keys() == old(Keys()) + if inserted then [key] else []
    {
      var pos := Find(key);
      if pos.Some? {
        return false;
      }
      index := index[key := |entries|];
      entries := entries + [(key, value)];
      return true;
    }

    /** Removes a key; the positions behind it move up by one. */
    method Erase(key: K) returns (removed: nat)
      requires Valid()
      modifies this
      ensures Valid()
      ensures key !in old(Keys()) ==> removed == 0 && entries == old(entries)
      ensures key in old(Keys()) ==>
                removed == 1 && exists i :: 0 <= i < |old(entries)| && old(entries)[i].0 == key
                                         && entries == old(entries)[..i] + old(entries)[i + 1..]
    {
      var found := Find(key);
      if found.None? {
        return 0;
      }
      var pos := found.value;
      ShiftedIsIndex(entries, index, pos);
      entries := entries[..pos] + entries[pos + 1..];
      index := Shifted(index, key, pos);
      return 1;
    }
  }
}
