/** The in-memory clipping index: blocks of sixteen records, so that growing it never moves a record. */
module ClippingIndex {
  import opened ClippingFormat
  import opened Device

  const CLIPPINGS_PER_BLOCK: nat := 16

  const FRESH_CLIPPING: Clipping :=
    Clipping(Record(0, 0, 0, 1, 0, 0, 0, 0xFFFF, 0, 0, U32_MAX, U32_MAX, 0, true, Zeros(ID_SIZE),
                    Zeros(TITLE_SIZE)), 0, 0)

  class Index {
    var blocks: seq<array<Clipping>>

    ghost predicate Valid()
      reads this, blocks
    {
      (forall k :: 0 <= k < |blocks| ==> blocks[k].Length == CLIPPINGS_PER_BLOCK) &&
      (forall j, k :: 0 <= j < k < |blocks| ==> blocks[j] != blocks[k])
    }

    function Capacity(): nat
      reads this
    {
      CLIPPINGS_PER_BLOCK * |blocks|
    }

    /** Every slot of every block, in index order. */
    ghost function Slots(): (s: seq<Clipping>)
      reads this, blocks
      requires Valid()
      ensures |s| == Capacity()
    {
      seq(Capacity(), i requires 0 <= i < Capacity() reads this, blocks requires Valid() =>
        blocks[i / CLIPPINGS_PER_BLOCK][i % CLIPPINGS_PER_BLOCK])
    }

    constructor ()
      ensures blocks == [] && Valid()
    {
      blocks := [];
    }

    method Get(i: nat) returns (c: Clipping)
      requires Valid() && i < Capacity()
      ensures c == Slots()[i]
    {
      c := blocks[i / CLIPPINGS_PER_BLOCK][i % CLIPPINGS_PER_BLOCK];
    }

    method Set(i: nat, c: Clipping)
      requires Valid() && i < Capacity()
      modifies blocks[i / CLIPPINGS_PER_BLOCK]
      ensures Valid() && Slots() == old(Slots())[i := c]
    {
      blocks[i / CLIPPINGS_PER_BLOCK][i % CLIPPINGS_PER_BLOCK] := c;
      assert forall j :: 0 <= j < Capacity() && j != i ==>
        j / CLIPPINGS_PER_BLOCK != i / CLIPPINGS_PER_BLOCK || j % CLIPPINGS_PER_BLOCK != i % CLIPPINGS_PER_BLOCK;
      assert Slots() == old(Slots())[i := c];
    }

    /** Adds blocks until count records fit; records already held stay where they are. */
    method Reserve(count: nat, limit: nat, storage: Storage) returns (ok: bool)
      requires Valid() && limit % CLIPPINGS_PER_BLOCK == 0
      modifies this, storage`faults
      ensures Valid() && old(blocks) <= blocks && old(Slots()) <= Slots()
      ensures forall k :: |old(blocks)| <= k < |blocks| ==> fresh(blocks[k])
      ensures old(Capacity()) <= limit ==> Capacity() <= limit
      ensures ok ==> count <= limit && count <= Capacity()
      ensures old(storage.faults) <= storage.faults
      ensures count <= limit && storage.faults == old(storage.faults) && !storage.dead ==> ok
    {
      if count > limit {
        return false;
      }
      while Capacity() < count
        invariant Valid() && old(blocks) <= blocks && old(Slots()) <= Slots()
        invariant forall k :: |old(blocks)| <= k < |blocks| ==> fresh(blocks[k])
        invariant old(Capacity()) <= limit ==> Capacity() <= limit
        invariant old(storage.faults) <= storage.faults
      {
        var found := storage.Allocate();
        if !found {
          return false;
        }
        var block := new Clipping[CLIPPINGS_PER_BLOCK](_ => FRESH_CLIPPING);
        ghost var before := Slots();
        blocks := blocks + [block];
        assert before <= Slots() by {
          assert forall i :: 0 <= i < |before| ==> before[i] == Slots()[i];
        }
      }
      ok := true;
    }

    method Clear()
      modifies this
      ensures blocks == [] && Valid()
    {
      blocks := [];
    }
  }
}
