/** The registry of thread pools. */
module PoolAdmin {
  import opened Results
  import opened Seqs

  datatype PoolRec = PoolRec(id: nat, amt: nat)

  const MAX_THRD_CNT_CRE := 256
  const MAX_POOLS := 10000

  function Threads(pools: seq<PoolRec>): nat {
    if pools == [] then 0 else Threads(pools[..|pools| - 1]) + pools[|pools| - 1].amt
  }

  predicate InUse(pools: seq<PoolRec>, id: int) {
    exists i :: 0 <= i < |pools| && pools[i].id == id
  }

  lemma {:induction false} ThreadsWithout(pools: seq<PoolRec>, i: nat)
    requires i < |pools|
    ensures Threads(RemoveAt(pools, i)) == Threads(pools) - pools[i].amt
  {
    var last := |pools| - 1;
    if i == last {
      assert RemoveAt(pools, i) == pools[..last];
    } else {
      var rest := RemoveAt(pools, i);
      ThreadsWithout(pools[..last], i);
      assert rest[..|rest| - 1] == pools[..last][..i] + pools[..last][i + 1..];
    }
  }

  ghost predicate IdsUnique(pools: seq<PoolRec>) {
    && (forall i, j :: 0 <= i < j < |pools| ==> pools[i].id != pools[j].id)
    && (forall i :: 0 <= i < |pools| ==> pools[i].id < MAX_POOLS && 1 <= pools[i].amt <= MAX_THRD_CNT_CRE)
  }

  lemma AdditionKeepsIds(pools: seq<PoolRec>, r: PoolRec)
    requires IdsUnique(pools) && !InUse(pools, r.id) && r.id < MAX_POOLS && 1 <= r.amt <= MAX_THRD_CNT_CRE
    ensures IdsUnique(pools + [r]) && Threads(pools + [r]) == Threads(pools) + r.amt
  {
    assert (pools + [r])[..|pools|] == pools;
  }

  lemma RemovalFreesTheId(pools: seq<PoolRec>, i: nat)
    requires i < |pools| && IdsUnique(pools)
    ensures var rest := RemoveAt(pools, i);
            IdsUnique(rest) && !InUse(rest, pools[i].id)
  {
    var rest := RemoveAt(pools, i);
    assert forall q :: 0 <= q < |rest| ==> rest[q] == pools[if q < i then q else q + 1];
  }

  class Registry {
    var pools: seq<PoolRec>
    var init: bool
    const limit: nat  // four threads per configured processor

    /** Ids are unique, and the threads of all pools together stay within the limit. */
    ghost predicate Valid()
      reads this
    {
      IdsUnique(pools) && Threads(pools) <= limit
    }

    constructor (nprocs: nat)
      ensures Valid() && pools == [] && !init && limit == 4 * nprocs
    {
      pools, init, limit := [], false, 4 * nprocs;
    }

    method Start()
      requires Valid()
      modifies this`init
      ensures Valid() && init
    {
      init := true;
    }

    method GetCurThrdCnt() returns (cnt: nat)
      ensures cnt == Threads(pools)
    {
      cnt := 0;
      for i := 0 to |pools|
        invariant cnt == Threads(pools[..i])
      {
        assert pools[..i + 1][..i] == pools[..i];
        cnt := cnt + pools[i].amt;
      }
      assert pools[..|pools|] == pools;
    }

    /** The least id not in use; -1 when all 10000 are taken. */
    method CrePolId() returns (id: int)
      ensures if id == -1 then forall k :: 0 <= k < 10000 ==> InUse(pools, k)
              else 0 <= id < 10000 && !InUse(pools, id) && forall k :: 0 <= k < id ==> InUse(pools, k)
    {
      for i := 0 to MAX_POOLS
        invariant forall k :: 0 <= k < i ==> InUse(pools, k)
      {
        var using := false;
        for p := 0 to |pools|
          invariant !using && forall q :: 0 <= q < p ==> pools[q].id != i
        {
          if pools[p].id == i {
            using := true;
            break;
          }
        }
        if !using {
          return i;
        }
      }
      return -1;
    }

    /** Register a pool of `amount` threads. It is refused exactly when the component is not started, the amount is
        out of range, the thread limit would be passed or no id is left; otherwise it gets the least free id. */
    method Create(amount: int) returns (id: int)
      requires Valid()
      modifies this`pools
      ensures Valid()
      ensures id == -1 <==>
                || !init || amount < 1 || amount > 256 || old(Threads(pools)) + amount > limit
                || forall k :: 0 <= k < 10000 ==> InUse(old(pools), k)
      ensures id == -1 ==> pools == old(pools)
      ensures id != -1 ==>
                && 0 <= id && pools == old(pools) + [PoolRec(id, amount)]
                && !InUse(old(pools), id) && forall k :: 0 <= k < id ==> InUse(old(pools), k)
    {
      if !init { return -1; }
      if amount < 1 || amount > MAX_THRD_CNT_CRE { return -1; }
      var curNrs := GetCurThrdCnt();
      if curNrs >= limit {
        return -1;
      } else if curNrs + amount > limit {
        return -1;
      }
      id := CrePolId();
      if id == -1 { return -1; }
      AdditionKeepsIds(pools, PoolRec(id, amount));
      pools := pools + [PoolRec(id, amount)];
    }

    /** Take the pool with this id out of the registry, so that no further post can find it. */
    method PopAPool(id: int) returns (pool: Option<PoolRec>, ghost at: nat)
      requires Valid()
      modifies this`pools
      ensures Valid() && !InUse(pools, id)
      ensures pool.None? <==> !InUse(old(pools), id)
      ensures pool.None? ==> pools == old(pools)
      ensures pool.Some? ==>
                && at < |old(pools)| && old(pools)[at] == pool.value && pool.value.id == id
                && pools == RemoveAt(old(pools), at)
      ensures Threads(pools) == old(Threads(pools)) - if pool.Some? then pool.value.amt else 0
    {
      for i := 0 to |pools|
        invariant pools == old(pools)
        invariant forall q :: 0 <= q < i ==> pools[q].id != id
      {
        if pools[i].id == id {
          pool, at := Some(pools[i]), i;
          ThreadsWithout(pools, i);
          RemovalFreesTheId(pools, i);
          pools := RemoveAt(pools, i);
          return;
        }
      }
      return None, 0;
    }
  }
}
