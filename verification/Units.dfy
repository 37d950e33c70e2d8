// The bitmap of unit addresses that a server answers for.
module Units {
  import opened Bytes
  import opened Payload

  const MASK_BYTES := 32
  const MAX_UNIT := 247

  // `(mask[id / 8] >> (id % 8)) & 1`
  predicate Active(mask: seq<bv8>, id: nat)
    requires |mask| == MASK_BYTES && id < 256
  {
    (mask[id / 8] >> (id % 8)) & 1 == 1
  }

  ghost function UnitSet(mask: seq<bv8>): set<nat>
    requires |mask| == MASK_BYTES
  {
    set id: nat | id < 256 && Active(mask, id)
  }

  // The units after registering a list: up to the first 0, or with an error up to the first address above 247.
  ghost function AddUnits(units: set<nat>, ids: Bytes): (set<nat>, bool)
    decreases |ids|
  {
    if ids == [] || ids[0] == 0 then (units, true)
    else if ByteVal(ids[0]) > MAX_UNIT then (units, false)
    else AddUnits(units + {ByteVal(ids[0])}, ids[1..])
  }

  // The addresses of a list that are reached before it ends or fails.
  ghost predicate Accepted(ids: Bytes, id: nat) {
    exists k :: 0 <= k < |ids| && ByteVal(ids[k]) == id && AllUnits(ids[..k + 1])
  }

  ghost predicate AllUnits(ids: Bytes) {
    forall j :: 0 <= j < |ids| ==> 1 <= ByteVal(ids[j]) <= MAX_UNIT
  }

  lemma ZeroByte(b: bv8)
    ensures b == 0 <==> ByteVal(b) == 0
  {
  }

  // After a call, a unit is registered exactly if it was before or is in the accepted prefix of the list.
  lemma {:induction false} AddUnitsExact(units: set<nat>, ids: Bytes, id: nat)
    ensures id in AddUnits(units, ids).0 <==> id in units || Accepted(ids, id)
    ensures AddUnits(units, ids).1 <==>
            forall k :: 0 <= k < |ids| && AllUnits(ids[..k]) && ids[k] != 0 ==> ByteVal(ids[k]) <= MAX_UNIT
    decreases |ids|
  {
    hide ByteVal;
    if ids != [] {
      ZeroByte(ids[0]);
      var head, rest := ByteVal(ids[0]), ids[1..];
      assert ids[..0] == [];
      if 1 <= head <= MAX_UNIT {
        AddUnitsExact(units + {head}, rest, id);
        AcceptedRest(ids, id);
        forall k | 0 <= k < |rest| ensures AllUnits(ids[..k + 1]) <==> AllUnits(rest[..k]) {
          PrefixRest(ids, k);
        }
        assert forall k :: 0 <= k < |rest| ==> ids[k + 1] == rest[k];
      } else if Accepted(ids, id) {
        AcceptedHead(ids, id);
      }
    }
  }

  lemma AcceptedHead(ids: Bytes, id: nat)
    requires ids != [] && Accepted(ids, id)
    ensures 1 <= ByteVal(ids[0]) <= MAX_UNIT
  {
    var k :| 0 <= k < |ids| && ByteVal(ids[k]) == id && AllUnits(ids[..k + 1]);
    assert ids[..k + 1][0] == ids[0];
  }

  lemma PrefixRest(ids: Bytes, k: nat)
    requires k < |ids| && 1 <= ByteVal(ids[0]) <= MAX_UNIT
    ensures AllUnits(ids[..k + 1]) <==> AllUnits(ids[1..][..k])
  {
    hide ByteVal;
    assert ids[..k + 1] == [ids[0]] + ids[1..][..k];
  }

  lemma AcceptedRest(ids: Bytes, id: nat)
    requires ids != [] && 1 <= ByteVal(ids[0]) <= MAX_UNIT
    ensures Accepted(ids, id) <==> id == ByteVal(ids[0]) || Accepted(ids[1..], id)
  {
    hide ByteVal;
    if Accepted(ids, id) && id != ByteVal(ids[0]) {
      var k :| 0 <= k < |ids| && ByteVal(ids[k]) == id && AllUnits(ids[..k + 1]);
      PrefixRest(ids, k);
      assert ids[1..][k - 1] == ids[k];
    }
    if Accepted(ids[1..], id) {
      var k :| 0 <= k < |ids| - 1 && ByteVal(ids[1..][k]) == id && AllUnits(ids[1..][..k + 1]);
      PrefixRest(ids, k + 1);
      assert ids[k + 1] == ids[1..][k];
    }
    if id == ByteVal(ids[0]) {
      assert AllUnits(ids[..0 + 1]);
    }
  }

  // Over any run of calls, only unicast addresses are ever registered: never 0, never above 247.
  ghost function AddAll(units: set<nat>, calls: seq<Bytes>): set<nat> {
    if calls == [] then units else AddUnits(AddAll(units, calls[..|calls| - 1]), calls[|calls| - 1]).0
  }

  lemma {:induction false} RegisteredExactly(calls: seq<Bytes>, id: nat)
    ensures id in AddAll({}, calls) <==> exists c :: 0 <= c < |calls| && Accepted(calls[c], id)
    ensures id in AddAll({}, calls) ==> 1 <= id <= MAX_UNIT
  {
    if calls != [] {
      var n := |calls| - 1;
      RegisteredExactly(calls[..n], id);
      AddUnitsExact(AddAll({}, calls[..n]), calls[n], id);
      hide ByteVal;
      if Accepted(calls[n], id) {
        var k :| 0 <= k < |calls[n]| && ByteVal(calls[n][k]) == id && AllUnits(calls[n][..k + 1]);
        assert calls[n][..k + 1][k] == calls[n][k];
      }
      assert forall c :: 0 <= c < n ==> calls[..n][c] == calls[c];
    }
  }

  // The byte and bit of an address, set in the mask: exactly that address is added.
  lemma SetUnit(mask: seq<bv8>, id: nat)
    requires |mask| == MASK_BYTES && id < 256
    ensures UnitSet(mask[id / 8 := mask[id / 8] | Mask8(id % 8)]) == UnitSet(mask) + {id}
  {
    var mask' := mask[id / 8 := mask[id / 8] | Mask8(id % 8)];
    forall j: nat | j < 256 ensures Active(mask', j) <==> j == id || Active(mask, j) {
      hide Mask8, Bit8;
      ActiveBit(mask, j);
      ActiveBit(mask', j);
      SetBit8(mask[id / 8], id % 8, j % 8);
      SameByte(id, j);
    }
    hide Active;
  }

  lemma SameByte(a: nat, b: nat)
    ensures a / 8 == b / 8 && a % 8 == b % 8 <==> a == b
  {
    assert a == 8 * (a / 8) + a % 8 && b == 8 * (b / 8) + b % 8;
  }

  lemma ActiveBit(mask: seq<bv8>, id: nat)
    requires |mask| == MASK_BYTES && id < 256
    ensures Active(mask, id) <==> Bit8(mask[id / 8], id % 8)
  {
    ShiftedBit(mask[id / 8], id % 8);
  }

  lemma ShiftedBit(b: bv8, k: nat)
    requires k < 8
    ensures (b >> k) & 1 == 1 <==> b & ((1 as bv8) << k) != 0
  {
  }

  lemma EmptyMask(mask: seq<bv8>)
    requires |mask| == MASK_BYTES && forall i :: 0 <= i < MASK_BYTES ==> mask[i] == 0
    ensures UnitSet(mask) == {}
  {
    forall id: nat | id < 256 ensures !Active(mask, id) {
      hide Bit8;
      ActiveBit(mask, id);
      NoBits(id % 8);
    }
    hide Active;
  }

  // ---------------------------------------------------------------------------------------------------------------
  // The units that a broadcast reaches, in the order of the loop.

  ghost function BroadcastOrder(units: set<nat>, hi: nat): seq<nat> {
    if hi == 0 then []
    else BroadcastOrder(units, hi - 1) + if hi in units then [hi] else []
  }

  // Each registered unit once, in ascending order.
  lemma {:induction false} BroadcastOrderExact(units: set<nat>, hi: nat)
    ensures forall id: nat :: id in BroadcastOrder(units, hi) <==> 1 <= id <= hi && id in units
    ensures Ascending(BroadcastOrder(units, hi))
  {
    if hi > 0 {
      BroadcastOrderExact(units, hi - 1);
      AscendingSnoc(BroadcastOrder(units, hi - 1), hi);
    }
  }

  ghost predicate Ascending(s: seq<nat>) {
    forall i, j :: 0 <= i < j < |s| ==> s[i] < s[j]
  }

  lemma AscendingSnoc(s: seq<nat>, x: nat)
    requires Ascending(s) && forall y: nat :: y in s ==> y < x
    ensures Ascending(s + [x])
  {
    forall i, j | 0 <= i < j < |s + [x]| ensures (s + [x])[i] < (s + [x])[j] {
      assert s[i] in s;
    }
  }
}
