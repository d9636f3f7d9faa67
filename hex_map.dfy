/** The hex map container (src/lib/hex/maps/index.ts): a mutable dictionary
    from hex objects to payloads. Like the JavaScript `Map` it is built on,
    it compares keys by object identity, not by coordinates. */
module HexMaps {
  import opened Wrappers
  import opened HexAlgebra

  /** A hex held by reference, as a JavaScript object is held. */
  class HexObject {
    const hex: Hex

    constructor (h: Hex)
      ensures hex == h
    {
      hex := h;
    }
  }

  class HexMap<T> {
    var hexData: map<HexObject, T>

    /** The coordinates that some key of the map carries. */
    ghost function Coordinates(): set<Hex>
      reads this
    {
      set k | k in hexData :: k.hex
    }

    constructor ()
      ensures hexData == map[]
    {
      hexData := map[];
    }

    function Has(key: HexObject): (b: bool)
      reads this
      ensures b <==> key in hexData
    {
      key in hexData
    }

    /** `get` returns `hexData.get(hex) || null`: a missing key and a stored
        value JavaScript counts as false both read back as `null`. */
    function Get(key: HexObject, truthy: T -> bool): (r: Option<T>)
      reads this
      ensures r.Some? <==> key in hexData && truthy(hexData[key])
      ensures r.Some? ==> r.value == hexData[key]
    {
      if key in hexData && truthy(hexData[key]) then Some(hexData[key]) else None
    }

    method Set(key: HexObject, data: T)
      modifies this
      ensures hexData == old(hexData)[key := data]
      ensures Has(key)
      ensures forall truthy: T -> bool :: Get(key, truthy) == if truthy(data) then Some(data) else None
      ensures forall k :: k != key ==> (k in hexData <==> k in old(hexData))
      ensures forall k :: k != key && k in hexData ==> hexData[k] == old(hexData)[k]
      ensures |hexData| == if key in old(hexData) then |old(hexData)| else |old(hexData)| + 1
    {
      hexData := hexData[key := data];
    }

    method Delete(key: HexObject)
      modifies this
      ensures hexData == old(hexData) - {key}
      ensures !Has(key)
      ensures forall k :: k != key ==> (k in hexData <==> k in old(hexData))
      ensures forall k :: k != key && k in hexData ==> hexData[k] == old(hexData)[k]
    {
      hexData := hexData - {key};
    }

    /** `forEach`: the callback is called once for every current entry, with
        the payload and the key. The model returns those calls; in which
        order they come is left open. */
    method ForEach() returns (calls: seq<(T, HexObject)>)
      ensures |calls| == |hexData|
      ensures forall i :: 0 <= i < |calls| ==> calls[i].1 in hexData && calls[i].0 == hexData[calls[i].1]
      ensures forall i, j :: 0 <= i < j < |calls| ==> calls[i].1 != calls[j].1
      ensures forall k :: k in hexData ==> exists i :: 0 <= i < |calls| && calls[i].1 == k
    {
      calls := [];
      var remaining := hexData.Keys;
      while remaining != {}
        invariant remaining <= hexData.Keys
        invariant |calls| + |remaining| == |hexData.Keys|
        invariant forall i :: 0 <= i < |calls| ==>
          calls[i].1 in hexData && calls[i].1 !in remaining && calls[i].0 == hexData[calls[i].1]
        invariant forall i, j :: 0 <= i < j < |calls| ==> calls[i].1 != calls[j].1
        invariant forall k :: k in hexData && k !in remaining ==> exists i :: 0 <= i < |calls| && calls[i].1 == k
        decreases remaining
      {
        var k :| k in remaining;
        ghost var before := calls;
        calls := calls + [(hexData[k], k)];
        remaining := remaining - {k};
        forall k' | k' in hexData && k' !in remaining
          ensures exists i :: 0 <= i < |calls| && calls[i].1 == k'
        {
          if k' == k {
            assert calls[|calls| - 1].1 == k';
          } else {
            var i :| 0 <= i < |before| && before[i].1 == k';
            assert calls[i] == before[i];
          }
        }
      }
    }
  }

  /** Keys are compared by identity: a freshly built hex is never a key of an
      existing map, whatever its coordinates. */
  method FreshHexIsNotAKey<T>(m: HexMap<T>, h: Hex) returns (key: HexObject)
    ensures fresh(key) && key.hex == h
    ensures !m.Has(key)
  {
    key := new HexObject(h);
  }
}
