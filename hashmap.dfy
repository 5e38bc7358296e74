/** `util.HashMap`: a dictionary with a running count of its entries. The
    count goes up when a key is stored whose current value is `undefined`,
    so it counts entries exactly as long as `undefined` itself is never
    stored. Keys are primitive, and JavaScript turns them into property
    names, so they are modelled as strings. */
module HashMaps {
  import opened Common

  class HashMap<V> {
    /** `_dict`: the stored values; `None` is a stored `undefined`. */
    var dict: map<string, Option<V>>
    /** `_size`. */
    var size: nat

    /** `this._dict[key]`: `undefined` for a key never stored. */
    function Lookup(key: string): (v: Option<V>)
      reads this
      ensures v.Some? <==> key in dict && dict[key].Some?
      ensures v.Some? ==> dict[key] == v
    {
      if key in dict then dict[key] else None
    }

    /** The keys whose value is defined. */
    function Defined(): (keys: set<string>)
      reads this
      ensures forall key :: key in keys <==> Lookup(key).Some?
    {
      set key | key in dict && dict[key].Some?
    }

    /** The count is the number of defined entries. */
    predicate Exact()
      reads this
    {
      size == |Defined()|
    }

    constructor ()
      ensures dict == map[] && size == 0
      ensures Exact()
    {
      dict := map[];
      size := 0;
    }

    /** `put`: the count goes up when the old value is `undefined`, and the
        key then maps to the new value. Storing a defined value keeps an
        exact count exact; storing `undefined` under an undefined key counts
        an entry that is still not defined, so the count runs ahead. */
    method Put(key: string, value: Option<V>)
      modifies this
      ensures size == if old(Lookup(key)).None? then old(size) + 1 else old(size)
      ensures dict == old(dict)[key := value]
      ensures Lookup(key) == value
      ensures forall other :: other != key ==> Lookup(other) == old(Lookup(other))
      ensures old(Exact()) && value.Some? ==> Exact()
      ensures old(Exact()) && value.None? && old(Lookup(key)).None? ==> size == |Defined()| + 1
    {
      ghost var before := Defined();
      if Lookup(key).None? {
        size := size + 1;
      }
      dict := dict[key := value];
      if value.Some? {
        if old(Lookup(key)).None? {
          assert Defined() == before + {key};
        } else {
          assert Defined() == before;
        }
      } else if old(Lookup(key)).None? {
        assert Defined() == before;
      }
    }

    /** `get`. */
    method Get(key: string) returns (v: Option<V>)
      ensures v.Some? <==> key in dict && dict[key].Some?
      ensures v.Some? ==> v == dict[key]
    {
      v := if key in dict then dict[key] else None;
    }

    /** `size()`. */
    method Size() returns (n: nat)
      ensures n == size
    {
      n := size;
    }
  }
}
