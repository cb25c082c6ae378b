/** One price level: the total resting quantity, and up to 16 order ids in arrival order. */
module PriceLevels {
  import opened Types

  /** `s` without its first occurrence of `id`. */
  function RemoveFirst(s: seq<u64>, id: u64): seq<u64> {
    if s == [] then []
    else if s[0] == id then s[1..]
    else [s[0]] + RemoveFirst(s[1..], id)
  }

  lemma {:induction false} RemoveFirstAbsent(s: seq<u64>, id: u64)
    requires id !in s
    ensures RemoveFirst(s, id) == s
  {
    if s != [] {
      RemoveFirstAbsent(s[1..], id);
    }
  }

  lemma {:induction false} RemoveFirstAt(s: seq<u64>, id: u64, i: nat)
    requires i < |s| && s[i] == id && id !in s[..i]
    ensures RemoveFirst(s, id) == s[..i] + s[i + 1..]
  {
    if i > 0 {
      assert s[1..][..i - 1] == s[..i][1..];
      assert s[0] == s[..i][0];
      RemoveFirstAt(s[1..], id, i - 1);
      assert s[..i] + s[i + 1..] == [s[0]] + (s[1..][..i - 1] + s[1..][i..]);
    }
  }

  class PriceLevel {
    var totalQuantity: u64
    const orderIds: array<u64>  // only the first `count` entries are in use
    var count: nat

    // Where the level sits in its book; this tells any two levels apart.
    ghost const side: Side
    ghost const price: int

    ghost predicate Valid()
      reads this
    {
      orderIds.Length == MAX_ORDERS_PER_LEVEL && count <= MAX_ORDERS_PER_LEVEL
    }

    constructor (ghost side: Side, ghost price: int)
      ensures Valid() && totalQuantity == 0 && Ids() == []
      ensures this.side == side && this.price == price && fresh(orderIds)
    {
      totalQuantity, count := 0, 0;
      orderIds := new u64[MAX_ORDERS_PER_LEVEL](_ => 0);
      this.side, this.price := side, price;
    }

    /** The ids in use, oldest first. */
    function Ids(): seq<u64>
      requires Valid()
      reads this, orderIds
    {
      orderIds[..count]
    }

    /** A full level drops the id: it reports false and changes nothing. */
    method Push(id: u64) returns (ok: bool)
      requires Valid()
      modifies this, orderIds
      ensures Valid() && totalQuantity == old(totalQuantity)
      ensures ok <==> |old(Ids())| < MAX_ORDERS_PER_LEVEL
      ensures Ids() == if ok then old(Ids()) + [id] else old(Ids())
    {
      if count >= MAX_ORDERS_PER_LEVEL { return false; }
      orderIds[count] := id;
      count := count + 1;
      return true;
    }

    /** Removes the first occurrence of `id`, shifting the later ids left. */
    method Remove(id: u64)
      requires Valid()
      modifies this, orderIds
      ensures Valid() && totalQuantity == old(totalQuantity)
      ensures Ids() == RemoveFirst(old(Ids()), id)
    {
      ghost var ids := Ids();
      for i := 0 to count
        invariant Valid() && Ids() == ids && totalQuantity == old(totalQuantity)
        invariant id !in ids[..i]
      {
        if orderIds[i] == id {
          var j := i;
          while j + 1 < count
            invariant i <= j < count == |ids| && Valid()
            invariant totalQuantity == old(totalQuantity) && count == old(count)
            invariant forall k | 0 <= k < i :: orderIds[k] == ids[k]
            invariant forall k | i <= k < j :: orderIds[k] == ids[k + 1]
            invariant forall k | j < k < count :: orderIds[k] == ids[k]
          {
            orderIds[j] := orderIds[j + 1];
            j := j + 1;
          }
          count := count - 1;
          assert Ids() == ids[..i] + ids[i + 1..];
          RemoveFirstAt(ids, id, i);
          return;
        }
      }
      RemoveFirstAbsent(ids, id);
    }
  }
}
