/** The two-tier expert cache over a slot arena. Residents of the VRAM tier are views into the
    arena's pools, so a slot that is reused changes what an old view reads. */
module FastCache {
  import opened Adversary
  import opened Collections
  import opened ReplacementTheory
  import opened SimCache
  import opened LruTheory

  /** The projections of one expert, as the weight store holds them. */
  datatype Page = Page(gate: seq<real>, up: seq<real>, down: seq<real>)

  datatype Weights = Weights(gateUp: seq<real>, down: seq<real>)

  /** Gate and up are stored as one matrix. */
  function Fused(page: Page): Weights {
    Weights(page.gate + page.up, page.down)
  }

  /** The gate rows first, the up rows after them, and the down projection as it is. */
  ghost predicate AreWeightsOf(w: Weights, page: Page) {
    && |w.gateUp| == |page.gate| + |page.up|
    && (forall i :: 0 <= i < |page.gate| ==> w.gateUp[i] == page.gate[i])
    && (forall i :: 0 <= i < |page.up| ==> w.gateUp[|page.gate| + i] == page.up[i])
    && w.down == page.down
  }

  lemma FusedIsWeights(page: Page)
    ensures AreWeightsOf(Fused(page), page)
  {
  }

  datatype Device = Cpu | Cuda

  datatype Tier = Vram | Ram | Disk

  /** A tensor handed out: a view of an arena slot, or a tensor of its own. */
  datatype Tensor = View(slot: int) | Own(weights: Weights)

  // ---------------------------------------------------------------- the arena

  function Descending(n: nat): (s: seq<int>)
    ensures |s| == n && forall i :: 0 <= i < n ==> s[i] == n - 1 - i
  {
    seq(n, i requires 0 <= i < n => n - 1 - i)
  }

  /** The free list holds exactly the slots no key has. */
  ghost predicate FreeIsRest(capacity: nat, free: seq<int>, slotToKey: map<int, Key>) {
    && Distinct(free)
    && (forall s :: s in free ==> 0 <= s < capacity && s !in slotToKey)
    && (forall s :: 0 <= s < capacity && s !in slotToKey ==> s in free)
  }

  /** The two maps are inverse. */
  ghost predicate Inverse(capacity: nat, keyToSlot: map<Key, int>, slotToKey: map<int, Key>) {
    && (forall k :: k in keyToSlot ==>
      0 <= keyToSlot[k] < capacity && keyToSlot[k] in slotToKey && slotToKey[keyToSlot[k]] == k)
    && (forall s :: s in slotToKey ==> slotToKey[s] in keyToSlot && keyToSlot[slotToKey[s]] == s)
  }

  ghost predicate OrderIsKeys(order: seq<Key>, keyToSlot: map<Key, int>) {
    Distinct(order) && forall k :: k in order <==> k in keyToSlot
  }

  /** No two keys share a slot. */
  lemma NoAliasing(capacity: nat, keyToSlot: map<Key, int>, slotToKey: map<int, Key>, a: Key, b: Key)
    requires Inverse(capacity, keyToSlot, slotToKey) && a in keyToSlot && b in keyToSlot
    ensures keyToSlot[a] == keyToSlot[b] ==> a == b
  {
  }

  lemma DropLast<T>(s: seq<T>, x: T)
    requires Distinct(s) && s != []
    ensures Distinct(s[..|s| - 1])
    ensures x in s[..|s| - 1] <==> x in s && x != s[|s| - 1]
  {
  }

  lemma TakeKeepsFree(capacity: nat, free: seq<int>, slotToKey: map<int, Key>, key: Key)
    requires FreeIsRest(capacity, free, slotToKey) && free != []
    ensures FreeIsRest(capacity, free[..|free| - 1], slotToKey[free[|free| - 1] := key])
  {
    var slot, rest := free[|free| - 1], free[..|free| - 1];
    DropLast(free, slot);
    forall s ensures s in rest <==> s in free && s != slot {
      DropLast(free, s);
    }
    var after := slotToKey[slot := key];
    forall s ensures s in after <==> s in slotToKey || s == slot {
    }
  }

  lemma GiveKeepsFree(capacity: nat, free: seq<int>, slotToKey: map<int, Key>, slot: int)
    requires FreeIsRest(capacity, free, slotToKey) && slot in slotToKey && 0 <= slot < capacity
    ensures FreeIsRest(capacity, free + [slot], slotToKey - {slot})
  {
  }

  lemma WithoutKeepsOrder(order: seq<Key>, keyToSlot: map<Key, int>, key: Key)
    requires OrderIsKeys(order, keyToSlot)
    ensures OrderIsKeys(Without(order, key), keyToSlot - {key})
  {
    WithoutIsDistinct(order, key);
    forall k ensures k in Without(order, key) <==> k in order && k != key {
      WithoutMembers(order, key, k);
    }
  }

  lemma AppendKeepsOrder(order: seq<Key>, keyToSlot: map<Key, int>, key: Key, slot: int)
    requires OrderIsKeys(order, keyToSlot) && key !in keyToSlot
    ensures OrderIsKeys(order + [key], keyToSlot[key := slot])
  {
  }

  /** Uninitialised buffers. */
  method AnyPool(n: nat) returns (pool: seq<Weights>)
    ensures |pool| == n
  {
    pool := *;
    if |pool| != n {
      pool := seq(n, _ => Weights([], []));
    }
  }

  class ExpertVRAMArena {
    const capacity: nat
    /** What each slot's buffers hold. */
    var pool: seq<Weights>
    /** The free list, popped from the end. */
    var freeSlots: seq<int>
    /** Allocated keys in allocation order, and the two slot maps. */
    var order: seq<Key>
    var keyToSlot: map<Key, int>
    var slotToKey: map<int, Key>

    ghost predicate Valid()
      reads this
    {
      && capacity >= 1 && |pool| == capacity
      && FreeIsRest(capacity, freeSlots, slotToKey)
      && Inverse(capacity, keyToSlot, slotToKey)
      && OrderIsKeys(order, keyToSlot)
      && |freeSlots| + |order| == capacity
    }

    constructor (requested: int)
      ensures Valid() && order == [] && keyToSlot == map[]
      ensures capacity == if requested < 1 then 1 else requested
    {
      capacity := if requested < 1 then 1 else requested;
      order, keyToSlot, slotToKey := [], map[], map[];
      new;
      pool := AnyPool(capacity);
      freeSlots := Descending(capacity);
      forall s | 0 <= s < capacity ensures s in freeSlots {
        assert freeSlots[capacity - 1 - s] == s;
      }
    }

    /** Forget every key. */
    method Reset()
      requires Valid()
      modifies this`order, this`keyToSlot, this`slotToKey, this`freeSlots
      ensures Valid() && order == [] && keyToSlot == map[]
    {
      order, keyToSlot, slotToKey := [], map[], map[];
      freeSlots := Descending(capacity);
      forall s | 0 <= s < capacity ensures s in freeSlots {
        assert freeSlots[capacity - 1 - s] == s;
      }
    }

    /** Give back a key's slot, if it has one. */
    method FreeSlot(key: Key)
      requires Valid()
      modifies this`order, this`keyToSlot, this`slotToKey, this`freeSlots
      ensures Valid() && keyToSlot == old(keyToSlot) - {key} && order == Without(old(order), key)
      ensures freeSlots == if key in old(keyToSlot) then old(freeSlots) + [old(keyToSlot)[key]] else old(freeSlots)
    {
      WithoutKeepsOrder(order, keyToSlot, key);
      if key in keyToSlot {
        var slot := keyToSlot[key];
        GiveKeepsFree(capacity, freeSlots, slotToKey, slot);
        order, keyToSlot, slotToKey := Without(order, key), keyToSlot - {key}, slotToKey - {slot};
        freeSlots := freeSlots + [slot];
      }
    }

    /** A slot for `key`: the one it has, the last freed one, or one taken from the oldest key. */
    method AllocateSlot(key: Key) returns (slot: int)
      requires Valid()
      modifies this`order, this`keyToSlot, this`slotToKey, this`freeSlots
      ensures Valid() && key in keyToSlot && keyToSlot[key] == slot
      ensures key in old(keyToSlot) ==> keyToSlot == old(keyToSlot)
      ensures key !in old(keyToSlot) && old(freeSlots) != [] ==>
        slot == old(freeSlots[|freeSlots| - 1]) && keyToSlot == old(keyToSlot)[key := slot]
      ensures key !in old(keyToSlot) && old(freeSlots) == [] ==>
        slot == old(keyToSlot[order[0]]) && keyToSlot == (old(keyToSlot) - {old(order)[0]})[key := slot]
    {
      if key in keyToSlot {
        return keyToSlot[key];
      }
      if freeSlots == [] {
        assert order[0] in order;
        FreeSlot(order[0]);
      }
      slot := TakeSlot(key);
    }

    method TakeSlot(key: Key) returns (slot: int)
      requires Valid() && key !in keyToSlot && freeSlots != []
      modifies this`order, this`keyToSlot, this`slotToKey, this`freeSlots
      ensures Valid() && slot == old(freeSlots[|freeSlots| - 1]) && keyToSlot == old(keyToSlot)[key := slot]
    {
      slot := freeSlots[|freeSlots| - 1];
      assert slot in freeSlots;
      TakeKeepsFree(capacity, freeSlots, slotToKey, key);
      AppendKeepsOrder(order, keyToSlot, key, slot);
      freeSlots := freeSlots[..|freeSlots| - 1];
      order, keyToSlot, slotToKey := order + [key], keyToSlot[key := slot], slotToKey[slot := key];
    }
  }

  // ---------------------------------------------------------------- the two tiers

  /** An ordered dictionary: keys oldest first, and what they map to. */
  ghost predicate IsDict<V>(keys: seq<Key>, entries: map<Key, V>) {
    Distinct(keys) && forall k :: k in keys <==> k in entries
  }

  lemma DictDropsOldest<V>(keys: seq<Key>, entries: map<Key, V>)
    requires IsDict(keys, entries) && keys != []
    ensures IsDict(keys[1..], entries - {keys[0]})
  {
    assert keys == [keys[0]] + keys[1..];
  }

  lemma DictAppends<V>(keys: seq<Key>, entries: map<Key, V>, key: Key, v: V)
    requires IsDict(keys, entries) && key !in entries
    ensures IsDict(keys + [key], entries[key := v])
  {
  }

  lemma DictRefreshes<V>(keys: seq<Key>, entries: map<Key, V>, key: Key)
    requires IsDict(keys, entries) && key in entries
    ensures IsDict(MoveToEnd(keys, key), entries) && |MoveToEnd(keys, key)| == |keys|
  {
    WithoutIsDistinct(keys, key);
    forall k ensures k in Without(keys, key) <==> k in keys && k != key {
      WithoutMembers(keys, key, k);
    }
  }

  /** Two listings of the same keys are equally long. */
  lemma SameKeysSameLength(a: seq<Key>, b: seq<Key>)
    requires Distinct(a) && Distinct(b) && forall k :: k in a <==> k in b
    ensures |a| == |b|
  {
    DistinctSize(a);
    DistinctSize(b);
    assert Elements(a) == Elements(b);
  }

  /** What the two tiers hold and have counted. */
  datatype Tiers = Tiers(hasArena: bool, vramKeys: seq<Key>, vram: map<Key, Tensor>, ramKeys: seq<Key>,
                         ram: map<Key, Weights>, vramHits: nat, ramHits: nat, diskFaults: nat) {
    ghost predicate Listed() {
      IsDict(vramKeys, vram) && IsDict(ramKeys, ram)
    }
  }

  /** Residents that stay keep their tensor, so views handed out for them keep their weights. */
  ghost predicate ResidentsKept(before: map<Key, Tensor>, after: map<Key, Tensor>, key: Key) {
    forall k :: k in after && k != key ==> k in before && after[k] == before[k]
  }

  /** What serving `key` from `tier` makes of the tiers; a full arena passes on the evicted key's slot. */
  ghost predicate Serves(vramCapacity: nat, ramCapacity: nat, before: Tiers, key: Key, target: Device, t: Tensor,
                         tier: Tier, after: Tiers) {
    && tier == (if target.Cuda? && key in before.vram then Vram else if key in before.ram then Ram else Disk)
    && (target.Cuda? && vramCapacity > 0 ==>
      && key in after.vram && after.vram[key] == t
      && after.vramKeys == LruStep(vramCapacity, before.vramKeys, key))
    && (target.Cuda? && !tier.Vram? && before.hasArena && |before.vramKeys| >= vramCapacity > 0 ==>
      before.vramKeys[0] in before.vram && t == before.vram[before.vramKeys[0]])
    && (target.Cpu? || vramCapacity == 0 ==> after.vramKeys == before.vramKeys && after.vram == before.vram)
    && (!tier.Vram? && ramCapacity > 0 ==> after.ramKeys == LruStep(ramCapacity, before.ramKeys, key))
    && (tier.Vram? ==> after.vram == before.vram && after.ramKeys == before.ramKeys && after.ram == before.ram)
    && ResidentsKept(before.vram, after.vram, key)
    && after.vramHits == before.vramHits + (if tier.Vram? then 1 else 0)
    && after.ramHits == before.ramHits + (if tier.Ram? then 1 else 0)
    && after.diskFaults == before.diskFaults + (if tier.Disk? then 1 else 0)
  }

  class ExpertMemoryCache {
    const vramCapacity: nat
    const ramCapacity: nat
    const store: Key -> Page
    var useArena: bool
    var arena: ExpertVRAMArena?
    var vramKeys: seq<Key>
    var vram: map<Key, Tensor>
    var ramKeys: seq<Key>
    var ram: map<Key, Weights>
    var vramHits: nat
    var ramHits: nat
    var diskFaults: nat

    /** The arena is the one there was, or a new one where there was none. */
    twostate predicate ArenaIsMine()
      reads this`arena
    {
      arena == old(arena) || (old(arena) == null && arena != null && fresh(arena))
    }

    /** What a tensor reads now. */
    function Deref(t: Tensor): Weights
      requires t.View? ==> arena != null && 0 <= t.slot < |arena.pool|
      reads this`arena, arena
    {
      match t
      case View(slot) => arena.pool[slot]
      case Own(w) => w
    }

    ghost predicate RamValid()
      reads this`ramKeys, this`ram
    {
      && ramCapacity >= 1 && IsDict(ramKeys, ram) && |ramKeys| <= ramCapacity
      && forall k :: k in ram ==> ram[k] == Fused(store(k))
    }

    /** VRAM residents and arena keys are the same, and every resident reads the store's weights. */
    ghost predicate VramValid()
      reads this`arena, this`useArena, this`vramKeys, this`vram, arena
    {
      && IsDict(vramKeys, vram) && |vramKeys| <= vramCapacity
      && (arena == null && useArena ==> vramKeys == [])
      && (arena == null ==> forall k :: k in vram ==> vram[k] == Own(Fused(store(k))))
      && (arena != null ==>
        && arena.Valid() && arena.capacity == vramCapacity
        && (forall k :: k in vram <==> k in arena.keyToSlot)
        && (forall k :: k in vram ==>
              vram[k] == View(arena.keyToSlot[k]) && arena.pool[arena.keyToSlot[k]] == Fused(store(k))))
    }

    ghost predicate Valid()
      reads this`arena, this`useArena, this`vramKeys, this`vram, this`ramKeys, this`ram, arena
    {
      RamValid() && VramValid()
    }

    constructor (vramCapacity: int, ramCapacity: int, useArena: bool, store: Key -> Page)
      ensures Valid() && arena == null && this.store == store
      ensures this.vramCapacity == (if vramCapacity < 0 then 0 else vramCapacity)
      ensures vramKeys == [] && ramKeys == [] && vramHits == ramHits == diskFaults == 0
    {
      this.vramCapacity := if vramCapacity < 0 then 0 else vramCapacity;
      this.ramCapacity := if ramCapacity < 1 then 1 else ramCapacity;
      this.useArena, this.store, arena := useArena, store, null;
      vramKeys, vram, ramKeys, ram := [], map[], [], map[];
      vramHits, ramHits, diskFaults := 0, 0, 0;
    }

    /** Evict the least recently used VRAM resident when the tier is full. */
    method EvictOldestVram()
      requires VramValid() && vramCapacity > 0
      modifies this`vramKeys, this`vram, arena
      ensures VramValid() && |vramKeys| < vramCapacity
      ensures vramKeys == if |old(vramKeys)| >= vramCapacity then old(vramKeys)[1..] else old(vramKeys)
      ensures forall k :: k in vram <==> k in old(vram) && (|old(vramKeys)| >= vramCapacity ==> k != old(vramKeys)[0])
      ensures forall k :: k in vram ==> vram[k] == old(vram)[k]
      ensures arena != null && |old(vramKeys)| >= vramCapacity ==>
        arena.freeSlots != [] && View(arena.freeSlots[|arena.freeSlots| - 1]) == old(vram)[old(vramKeys)[0]]
    {
      if |vramKeys| >= vramCapacity {
        var oldest := vramKeys[0];
        assert oldest in vramKeys && oldest in vram;
        DictDropsOldest(vramKeys, vram);
        vramKeys, vram := vramKeys[1..], vram - {oldest};
        if arena != null {
          arena.FreeSlot(oldest);
        }
      }
    }

    /** Allocate the arena the first time it is needed; running out of memory turns it off. */
    method EnsureArena()
      requires VramValid() && vramCapacity > 0
      modifies this`arena, this`useArena
      ensures VramValid() && ArenaIsMine()
      ensures old(arena) != null ==> arena == old(arena)
      ensures arena == null ==> !useArena
    {
      if arena == null && useArena {
        var exhausted := AnyFlag();
        if exhausted {
          useArena := false;
        } else {
          arena := new ExpertVRAMArena(vramCapacity);
        }
      }
    }

    /** Put weights into a free place of the VRAM tier. */
    method Install(key: Key, w: Weights) returns (t: Tensor)
      requires VramValid() && |vramKeys| < vramCapacity && key !in vram && w == Fused(store(key))
      requires arena == null ==> !useArena
      modifies this`vramKeys, this`vram, arena
      ensures VramValid() && vramKeys == old(vramKeys) + [key] && vram == old(vram)[key := t]
      ensures arena != null && old(arena.freeSlots) != [] ==> t == View(old(arena.freeSlots[|arena.freeSlots| - 1]))
    {
      if arena == null {
        t := Own(w);
      } else {
        t := CopyIntoSlot(key, w);
      }
      Record(key, t);
    }

    method Record(key: Key, t: Tensor)
      requires IsDict(vramKeys, vram) && |vramKeys| < vramCapacity && key !in vram
      requires arena == null ==>
        !useArena && t == Own(Fused(store(key))) && forall k :: k in vram ==> vram[k] == Own(Fused(store(k)))
      requires arena != null ==>
        && arena.Valid() && arena.capacity == vramCapacity && t.View?
        && (forall k :: k in vram || k == key <==> k in arena.keyToSlot)
        && t.slot == arena.keyToSlot[key] && arena.pool[t.slot] == Fused(store(key))
        && (forall k :: k in vram ==>
              vram[k] == View(arena.keyToSlot[k]) && arena.pool[arena.keyToSlot[k]] == Fused(store(k)))
      modifies this`vramKeys, this`vram
      ensures VramValid() && vramKeys == old(vramKeys) + [key] && vram == old(vram)[key := t]
    {
      DictAppends(vramKeys, vram, key, t);
      vramKeys, vram := vramKeys + [key], vram[key := t];
    }

    /** There is a free slot whenever the tier has room, so no other key loses its slot. */
    method CopyIntoSlot(key: Key, w: Weights) returns (t: Tensor)
      requires VramValid() && arena != null && |vramKeys| < vramCapacity && key !in vram
      modifies arena
      ensures arena.Valid() && old(arena.freeSlots) != []
      ensures t == View(old(arena.freeSlots[|arena.freeSlots| - 1]))
      ensures arena.keyToSlot == old(arena.keyToSlot)[key := t.slot] && 0 <= t.slot < arena.capacity
      ensures arena.pool[t.slot] == w
      ensures forall k :: k in vram ==> arena.pool[arena.keyToSlot[k]] == Fused(store(k))
    {
      SameKeysSameLength(vramKeys, arena.order);
      var slot := arena.AllocateSlot(key);
      arena.pool := arena.pool[slot := w];
      t := View(slot);
    }

    lemma ResidentsAreListed()
      requires VramValid()
      ensures forall k :: k in vramKeys <==> k in vram
    {
    }

    /** Copy weights into the VRAM tier, which is a least-recently-used cache; a full tier reuses
        exactly the slot of the resident it evicts. */
    method Promote(key: Key, w: Weights) returns (t: Tensor)
      requires VramValid() && vramCapacity > 0 && key !in vram && w == Fused(store(key))
      modifies this`vramKeys, this`vram, this`arena, this`useArena, arena
      ensures VramValid() && ArenaIsMine()
      ensures vramKeys == LruStep(vramCapacity, old(vramKeys), key) && key in vram && vram[key] == t
      ensures forall k :: k in vram && k != key ==> k in old(vram) && vram[k] == old(vram)[k]
      ensures old(arena) != null && |old(vramKeys)| >= vramCapacity ==> t == old(vram)[old(vramKeys)[0]]
    {
      hide ExpertMemoryCache.VramValid, Fused;
      ResidentsAreListed();
      EvictOldestVram();
      EnsureArena();
      t := Install(key, w);
    }

    /** Stage weights in host RAM, dropping the least recently used entry when it is full. */
    method StageRam(key: Key, w: Weights)
      requires RamValid() && key !in ram && w == Fused(store(key))
      modifies this`ramKeys, this`ram
      ensures RamValid() && ramKeys == LruStep(ramCapacity, old(ramKeys), key) && key in ram
    {
      if |ramKeys| >= ramCapacity {
        DictDropsOldest(ramKeys, ram);
        ramKeys, ram := ramKeys[1..], ram - {ramKeys[0]};
      }
      DictAppends(ramKeys, ram, key, w);
      ramKeys, ram := ramKeys + [key], ram[key := w];
    }

    method PrefetchOne(key: Key)
      requires Valid() && vramCapacity > 0
      modifies this`vramKeys, this`vram, this`arena, this`useArena, arena
      ensures Valid() && ArenaIsMine()
      ensures vramKeys ==
        if key !in old(vramKeys) && key in ram.Keys then LruStep(vramCapacity, old(vramKeys), key) else old(vramKeys)
    {
      assert key in vram <==> key in vramKeys;
      if key !in vram && key in ram {
        var t := Promote(key, ram[key]);
      }
    }

    /** Copy upcoming experts that are warm in RAM into VRAM. */
    method PrefetchBatch(layer: int, expertIds: seq<int>, target: Device)
      requires Valid()
      modifies this`vramKeys, this`vram, this`arena, this`useArena, arena
      ensures Valid() && ArenaIsMine()
      ensures target.Cpu? ==> vramKeys == old(vramKeys)
      ensures vramKeys == if target.Cpu? || vramCapacity == 0 then old(vramKeys)
                          else AfterPrefetch(vramCapacity, old(vramKeys), ram.Keys, layer, expertIds)
    {
      if target.Cpu? || vramCapacity <= 0 {
        return;
      }
      for i := 0 to |expertIds|
        invariant Valid() && ArenaIsMine()
        invariant AfterPrefetch(vramCapacity, vramKeys, ram.Keys, layer, expertIds[i..])
          == AfterPrefetch(vramCapacity, old(vramKeys), ram.Keys, layer, expertIds)
      {
        var key := (layer, expertIds[i]);
        assert expertIds[i..][1..] == expertIds[i + 1..];
        PrefetchOne(key);
      }
    }

    function Now(): Tiers
      reads this
    {
      Tiers(arena != null, vramKeys, vram, ramKeys, ram, vramHits, ramHits, diskFaults)
    }

    twostate predicate Served(key: Key, target: Device, t: Tensor, tier: Tier)
      reads this
    {
      Serves(vramCapacity, ramCapacity, old(Now()), key, target, t, tier, Now())
    }

    /** The tensor is live and reads the gate, up and down projections the store holds for `key`. */
    ghost predicate ReadsExpert(t: Tensor, key: Key)
      reads this`arena, arena
    {
      && (t.View? ==> arena != null && 0 <= t.slot < |arena.pool|)
      && AreWeightsOf(Deref(t), store(key))
    }

    /** Fetch an expert's weights. However it is served, what the tensor reads is what the store
        holds; on CUDA the VRAM tier moves exactly as a least-recently-used cache. A failed read
        from the store changes nothing but the fault count. */
    method GetOrLoad(key: Key, target: Device, calm: bool) returns (result: Option<(Tensor, Tier)>)
      requires Valid()
      modifies this, arena
      ensures Valid() && ArenaIsMine()
      ensures calm ==> result.Some?
      ensures result.Some? ==> Reads(result.value.0, key) && Served(key, target, result.value.0, result.value.1)
      ensures result.Some? ==> ReadsExpert(result.value.0, key)
      ensures result == None ==> Now() == old(Now()).(diskFaults := old(diskFaults) + 1)
    {
      hide Serves, VramValid, RamValid, LruStep, Fused, AreWeightsOf;
      FusedIsWeights(store(key));
      if target.Cuda? && key in vram {
        var t := ServeFromVram(key);
        return Some((t, Vram));
      }
      if key in ram {
        var t := ServeFromRam(key, target);
        return Some((t, Ram));
      }
      var failed := AnyFlag();
      if failed && !calm {
        diskFaults := diskFaults + 1;
        return None;
      }
      var t := ServeFromDisk(key, target);
      return Some((t, Disk));
    }

    method ServeFromVram(key: Key) returns (t: Tensor)
      requires Valid() && key in vram
      modifies this`vramKeys, this`vramHits
      ensures Valid() && Reads(t, key) && Served(key, Cuda, t, Vram)
    {
      hide VramValid, RamValid, LruStep, Fused;
      t := HitVram(key);
    }

    method ServeFromRam(key: Key, target: Device) returns (t: Tensor)
      requires Valid() && key in ram && (target.Cuda? ==> key !in vram)
      modifies this, arena
      ensures Valid() && ArenaIsMine()
      ensures Reads(t, key) && Served(key, target, t, Ram)
    {
      hide VramValid, RamValid, LruStep, Fused;
      ramHits := ramHits + 1;
      var w := HitRam(key);
      t := Deliver(key, w, target);
    }

    method ServeFromDisk(key: Key, target: Device) returns (t: Tensor)
      requires Valid() && key !in ram && (target.Cuda? ==> key !in vram)
      modifies this, arena
      ensures Valid() && ArenaIsMine()
      ensures Reads(t, key) && Served(key, target, t, Disk)
    {
      hide VramValid, RamValid, LruStep, Fused;
      diskFaults := diskFaults + 1;
      var w := Fused(store(key));
      StageRam(key, w);
      t := Deliver(key, w, target);
    }

    /** Serve a resident and make it the most recently used. */
    method HitVram(key: Key) returns (t: Tensor)
      requires VramValid() && key in vram
      modifies this`vramKeys, this`vramHits
      ensures VramValid() && Reads(t, key) && t == vram[key] && vramCapacity > 0
      ensures vramKeys == LruStep(vramCapacity, old(vramKeys), key) && vramHits == old(vramHits) + 1
    {
      hide MoveToEnd;
      vramHits := vramHits + 1;
      assert key in vramKeys;
      DictRefreshes(vramKeys, vram, key);
      vramKeys := MoveToEnd(vramKeys, key);
      t := vram[key];
    }

    method HitRam(key: Key) returns (w: Weights)
      requires RamValid() && key in ram
      modifies this`ramKeys
      ensures RamValid() && w == Fused(store(key)) && ramKeys == LruStep(ramCapacity, old(ramKeys), key)
    {
      assert key in ramKeys;
      DictRefreshes(ramKeys, ram, key);
      ramKeys := MoveToEnd(ramKeys, key);
      w := ram[key];
    }

    /** Through the VRAM tier on CUDA, directly otherwise. */
    method Deliver(key: Key, w: Weights, target: Device) returns (t: Tensor)
      requires VramValid() && w == Fused(store(key)) && (target.Cuda? ==> key !in vram)
      modifies this`vramKeys, this`vram, this`arena, this`useArena, arena
      ensures VramValid() && ArenaIsMine()
      ensures Reads(t, key)
      ensures target.Cuda? && vramCapacity > 0 ==>
        key in vram && vram[key] == t && vramKeys == LruStep(vramCapacity, old(vramKeys), key)
      ensures target.Cpu? || vramCapacity == 0 ==> vramKeys == old(vramKeys) && vram == old(vram)
      ensures target.Cuda? && vramCapacity > 0 && old(arena) != null && |old(vramKeys)| >= vramCapacity ==>
        old(vramKeys)[0] in old(vram) && t == old(vram)[old(vramKeys)[0]]
      ensures ResidentsKept(old(vram), vram, key)
    {
      if target.Cuda? && vramCapacity > 0 {
        t := Promote(key, w);
      } else {
        t := Own(w);
      }
    }

    /** The tensor is live and reads the store's weights for `key`. */
    ghost predicate Reads(t: Tensor, key: Key)
      reads this`arena, arena
    {
      && (t.View? ==> arena != null && 0 <= t.slot < |arena.pool|)
      && Deref(t) == Fused(store(key))
    }

    /** A view stays good for as long as its expert stays resident. */
    lemma ResidentReads(key: Key)
      requires Valid() && key in vram
      ensures Reads(vram[key], key) && ReadsExpert(vram[key], key)
    {
      FusedIsWeights(store(key));
    }

    method Clear()
      requires Valid()
      modifies this`vramKeys, this`vram, this`ramKeys, this`ram, arena
      ensures Valid() && vramKeys == [] && ramKeys == []
    {
      vramKeys, vram, ramKeys, ram := [], map[], [], map[];
      if arena != null {
        arena.Reset();
      }
    }
  }

  /** The VRAM recency order after a prefetch: warm, non-resident experts come in, residents are
      not refreshed. */
  function AfterPrefetch(capacity: nat, keys: seq<Key>, warm: set<Key>, layer: int, expertIds: seq<int>): seq<Key>
    requires capacity >= 1
    decreases |expertIds|
  {
    if expertIds == [] then keys
    else
      var key := (layer, expertIds[0]);
      AfterPrefetch(capacity, if key !in keys && key in warm then LruStep(capacity, keys, key) else keys,
                    warm, layer, expertIds[1..])
  }

  /** The experts a prefetch brings in, one after another: those that are warm and not among the last
      `capacity` keys by then. */
  ghost function Arrivals(capacity: nat, keys: seq<Key>, warm: set<Key>, layer: int, expertIds: seq<int>): (a: seq<Key>)
    decreases |expertIds|
  {
    if expertIds == [] then []
    else
      var key := (layer, expertIds[0]);
      if key in warm && key !in LastN(keys, capacity)
      then [key] + Arrivals(capacity, keys + [key], warm, layer, expertIds[1..])
      else Arrivals(capacity, keys, warm, layer, expertIds[1..])
  }

  lemma QueueArrival(capacity: nat, past: seq<Key>, key: Key)
    requires capacity >= 1 && key !in LastN(past, capacity)
    ensures LruStep(capacity, LastN(past, capacity), key) == LastN(past + [key], capacity)
  {
  }

  lemma NothingPrefetched(capacity: nat, past: seq<Key>, warm: set<Key>, layer: int)
    requires capacity >= 1
    ensures AfterPrefetch(capacity, LastN(past, capacity), warm, layer, [])
      == LastN(past + Arrivals(capacity, past, warm, layer, []), capacity)
  {
    assert past + [] == past;
  }

  /** The first expert of a prefetch, and the rest. */
  lemma PrefetchNext(capacity: nat, past: seq<Key>, warm: set<Key>, layer: int, expertIds: seq<int>)
    requires capacity >= 1 && expertIds != []
    ensures
      var key, rest, held := (layer, expertIds[0]), expertIds[1..], LastN(past, capacity);
      if key in warm && key !in held then
        && AfterPrefetch(capacity, held, warm, layer, expertIds)
          == AfterPrefetch(capacity, LruStep(capacity, held, key), warm, layer, rest)
        && past + Arrivals(capacity, past, warm, layer, expertIds)
          == past + [key] + Arrivals(capacity, past + [key], warm, layer, rest)
      else
        && AfterPrefetch(capacity, held, warm, layer, expertIds) == AfterPrefetch(capacity, held, warm, layer, rest)
        && Arrivals(capacity, past, warm, layer, expertIds) == Arrivals(capacity, past, warm, layer, rest)
  {
    hide LastN, LruStep;
    var key, rest := (layer, expertIds[0]), expertIds[1..];
    assert past + ([key] + Arrivals(capacity, past + [key], warm, layer, rest))
      == past + [key] + Arrivals(capacity, past + [key], warm, layer, rest);
  }

  /** A prefetch treats the tier as a queue: it ends with the last keys of those that were there and those
      that came in, since nothing it finds resident is refreshed. */
  lemma {:induction false} PrefetchIsQueue(capacity: nat, past: seq<Key>, warm: set<Key>, layer: int,
                                           expertIds: seq<int>)
    requires capacity >= 1
    ensures AfterPrefetch(capacity, LastN(past, capacity), warm, layer, expertIds)
      == LastN(past + Arrivals(capacity, past, warm, layer, expertIds), capacity)
    decreases |expertIds|
  {
    hide *;
    if expertIds == [] {
      NothingPrefetched(capacity, past, warm, layer);
    } else {
      var key, rest := (layer, expertIds[0]), expertIds[1..];
      PrefetchNext(capacity, past, warm, layer, expertIds);
      if key in warm && key !in LastN(past, capacity) {
        QueueArrival(capacity, past, key);
        PrefetchIsQueue(capacity, past + [key], warm, layer, rest);
      } else {
        PrefetchIsQueue(capacity, past, warm, layer, rest);
      }
    }
  }

  /** With room for all of them every warm expert asked for is resident afterwards. */
  lemma {:induction false} PrefetchedStay(capacity: nat, keys: seq<Key>, warm: set<Key>, layer: int,
                                          expertIds: seq<int>, key: Key)
    requires capacity >= 1 && |keys| + |expertIds| <= capacity
    ensures key in AfterPrefetch(capacity, keys, warm, layer, expertIds) <==>
      key in keys || (key in warm && key.0 == layer && key.1 in expertIds)
    decreases |expertIds|
  {
    if expertIds != [] {
      var first, rest := (layer, expertIds[0]), expertIds[1..];
      assert expertIds == [expertIds[0]] + rest;
      PrefetchedStay(capacity, if first !in keys && first in warm then keys + [first] else keys, warm, layer, rest,
                     key);
    }
  }

  /** What serving has come to before access `n`: both tiers are where LRU would be. */
  ghost predicate TiersAt(vramCapacity: nat, ramCapacity: nat, trace: seq<Key>, n: nat, tiers: Tiers)
    requires vramCapacity > 0 && ramCapacity > 0 && n <= |trace|
  {
    var missed := PassedOn(vramCapacity, trace, |trace|);
    var m := MissesUpTo(trace, LruContents(vramCapacity, trace), n);
    && m <= |missed|
    && tiers.vramKeys == LruAt(vramCapacity, trace, n) && tiers.vramHits == n - m
    && tiers.ramKeys == LruAt(ramCapacity, missed, m)
    && tiers.diskFaults == MissesUpTo(missed, LruContents(ramCapacity, missed), m)
    && tiers.ramHits == m - tiers.diskFaults
  }

  /** Tensors handed out for keys that stayed resident are still the residents' own. */
  ghost predicate ViewsHold(capacity: nat, trace: seq<Key>, served: seq<Tensor>, vram: map<Key, Tensor>)
    requires capacity > 0 && |served| <= |trace|
  {
    forall j :: 0 <= j < |served| && StaysHeld(capacity, trace, j, |served|) ==>
      trace[j] in vram && vram[trace[j]] == served[j]
  }

  /** A view `t` handed out for access `j` passes its slot on to the tensor `next` of access `n` if that is
      the first to push `trace[j]` out of a full tier. */
  ghost predicate SlotPassesOn(capacity: nat, trace: seq<Key>, j: nat, t: Tensor, n: nat, next: Tensor)
    requires j < n < |trace|
  {
    t.View? && trace[j] !in trace[j + 1..n] && |Elements(trace[j..n])| == capacity && trace[n] !in trace[j..n] ==>
      next == t
  }

  lemma TiersMove(vramCapacity: nat, ramCapacity: nat, trace: seq<Key>, n: nat, before: Tiers, t: Tensor, tier: Tier,
                  after: Tiers)
    requires vramCapacity > 0 && ramCapacity > 0 && n < |trace| && before.Listed()
    requires TiersAt(vramCapacity, ramCapacity, trace, n, before)
    requires Serves(vramCapacity, ramCapacity, before, trace[n], Cuda, t, tier, after)
    ensures TiersAt(vramCapacity, ramCapacity, trace, n + 1, after)
  {
    hide LruStep, LruAt, PassedOn;
    var missed := PassedOn(vramCapacity, trace, |trace|);
    var m := MissesUpTo(trace, LruContents(vramCapacity, trace), n);
    LruMoves(vramCapacity, trace, n);
    assert tier.Vram? <==> trace[n] in LruAt(vramCapacity, trace, n);
    if !tier.Vram? {
      PassedOnNext(vramCapacity, trace, n);
      LruMoves(ramCapacity, missed, m);
    }
  }

  /** One access of a simulated LRU cache, and its miss count. */
  lemma LruMoves(capacity: nat, trace: seq<Key>, n: nat)
    requires capacity >= 1 && n < |trace|
    ensures LruAt(capacity, trace, n + 1) == LruStep(capacity, LruAt(capacity, trace, n), trace[n])
    ensures
      var contents := LruContents(capacity, trace);
      MissesUpTo(trace, contents, n + 1) ==
        MissesUpTo(trace, contents, n) + if trace[n] in LruAt(capacity, trace, n) then 0 else 1
  {
    ReplayStep(LruPolicy(capacity), LruHolds, [], trace, n);
  }

  lemma ViewsMove(vramCapacity: nat, ramCapacity: nat, trace: seq<Key>, served: seq<Tensor>, before: Tiers, t: Tensor,
                  tier: Tier, after: Tiers)
    requires vramCapacity > 0 && |served| < |trace| && before.Listed() && after.Listed()
    requires ViewsHold(vramCapacity, trace, served, before.vram)
    requires Serves(vramCapacity, ramCapacity, before, trace[|served|], Cuda, t, tier, after)
    requires after.vramKeys == LruAt(vramCapacity, trace, |served| + 1)
    ensures ViewsHold(vramCapacity, trace, served + [t], after.vram)
  {
    hide LruAt, LruStep;
    var n := |served|;
    forall j | 0 <= j < n && StaysHeld(vramCapacity, trace, j, n + 1)
      ensures trace[j] in after.vram && after.vram[trace[j]] == served[j]
    {
      assert StaysHeld(vramCapacity, trace, j, n);
      assert trace[j] in LruAt(vramCapacity, trace, n + 1);
    }
  }

  lemma SlotMoves(vramCapacity: nat, ramCapacity: nat, trace: seq<Key>, served: seq<Tensor>, before: Tiers, t: Tensor,
                  tier: Tier, after: Tiers, j: nat)
    requires vramCapacity > 0 && j < |served| < |trace| && before.Listed()
    requires ViewsHold(vramCapacity, trace, served, before.vram)
    requires Serves(vramCapacity, ramCapacity, before, trace[|served|], Cuda, t, tier, after)
    requires before.vramKeys == LruAt(vramCapacity, trace, |served|) && (served[j].View? ==> before.hasArena)
    ensures SlotPassesOn(vramCapacity, trace, j, served[j], |served|, t)
  {
    hide LruAt, LruStep;
    var n := |served|;
    if |Elements(trace[j..n])| == vramCapacity && trace[j] !in trace[j + 1..n] && trace[n] !in trace[j..n] {
      forall i | j < i < n ensures trace[i] != trace[j] {
        assert trace[i] == trace[j + 1..n][i - j - 1];
      }
      RecentKeyStays(vramCapacity, trace, j, n);
      LastInFullCache(vramCapacity, trace, j, n);
      NextKeyMisses(vramCapacity, trace, j, n);
    }
  }

  method ServeNext(cache: ExpertMemoryCache, trace: seq<Key>, served: seq<Tensor>) returns (t: Tensor)
    requires cache.Valid() && cache.vramCapacity > 0 && |served| < |trace|
    requires TiersAt(cache.vramCapacity, cache.ramCapacity, trace, |served|, cache.Now())
    requires ViewsHold(cache.vramCapacity, trace, served, cache.vram)
    requires forall j :: 0 <= j < |served| && served[j].View? ==> cache.arena != null
    modifies cache, cache.arena
    ensures cache.Valid() && cache.ArenaIsMine() && (t.View? ==> cache.arena != null)
    ensures TiersAt(cache.vramCapacity, cache.ramCapacity, trace, |served| + 1, cache.Now())
    ensures ViewsHold(cache.vramCapacity, trace, served + [t], cache.vram)
    ensures forall j :: 0 <= j < |served| ==> SlotPassesOn(cache.vramCapacity, trace, j, served[j], |served|, t)
  {
    hide Serves, LruStep, ViewsHold, SlotPassesOn, PassedOn;
    ghost var before := cache.Now();
    assert before.Listed();
    var result := cache.GetOrLoad(trace[|served|], Cuda, true);
    t := result.value.0;
    ghost var tier, after := result.value.1, cache.Now();
    assert after.Listed();
    TiersMove(cache.vramCapacity, cache.ramCapacity, trace, |served|, before, t, tier, after);
    ViewsMove(cache.vramCapacity, cache.ramCapacity, trace, served, before, t, tier, after);
    forall j | 0 <= j < |served| ensures SlotPassesOn(cache.vramCapacity, trace, j, served[j], |served|, t) {
      SlotMoves(cache.vramCapacity, cache.ramCapacity, trace, served, before, t, tier, after, j);
    }
  }

  lemma RecentViewsRead(cache: ExpertMemoryCache, trace: seq<Key>, served: seq<Tensor>, j: nat)
    requires cache.Valid() && cache.vramCapacity > 0 && j < |trace| == |served|
    requires ViewsHold(cache.vramCapacity, trace, served, cache.vram)
    requires |Elements(trace[j..])| <= cache.vramCapacity
    ensures cache.ReadsExpert(served[j], trace[j])
  {
    assert trace[j..] == trace[j..|trace|];
    RecentKeyStays(cache.vramCapacity, trace, j, |trace|);
    cache.ResidentReads(trace[j]);
  }

  /** Serving a whole trace on CUDA. The VRAM tier hits exactly as often as the simulated LRU cache of
      the same capacity, and the RAM tier as often as one over the accesses that miss VRAM. A tensor
      handed out still reads its expert as long as no more distinct experts than the tier holds have
      been asked for since, itself included; the next one takes over its slot. */
  method ServeTrace(cache: ExpertMemoryCache, trace: seq<Key>) returns (served: seq<Tensor>)
    requires cache.Valid() && cache.vramCapacity > 0 && cache.vramKeys == [] && cache.ramKeys == []
    requires cache.vramHits == cache.ramHits == cache.diskFaults == 0
    modifies cache, cache.arena
    ensures cache.Valid() && |served| == |trace|
    ensures cache.vramHits == |trace| - LruMisses(cache.vramCapacity, trace)
    ensures cache.vramKeys == LruAt(cache.vramCapacity, trace, |trace|)
    ensures
      var missed := PassedOn(cache.vramCapacity, trace, |trace|);
      && cache.diskFaults == LruMisses(cache.ramCapacity, missed) && cache.ramHits == |missed| - cache.diskFaults
      && cache.ramKeys == LruAt(cache.ramCapacity, missed, |missed|)
    ensures forall j :: 0 <= j < |trace| && |Elements(trace[j..])| <= cache.vramCapacity ==>
      cache.ReadsExpert(served[j], trace[j])
    ensures forall j, n :: 0 <= j < n < |trace| ==> SlotPassesOn(cache.vramCapacity, trace, j, served[j], n, served[n])
  {
    hide ExpertMemoryCache.VramValid, LruStep, ViewsHold, SlotPassesOn;
    served := [];
    StartsEmpty(cache, trace);
    for n := 0 to |trace|
      invariant cache.Valid() && (cache.arena == old(cache.arena) || (cache.arena != null && fresh(cache.arena)))
      invariant |served| == n && TiersAt(cache.vramCapacity, cache.ramCapacity, trace, n, cache.Now())
      invariant ViewsHold(cache.vramCapacity, trace, served, cache.vram)
      invariant forall j :: 0 <= j < n && served[j].View? ==> cache.arena != null
      invariant forall j, i :: 0 <= j < i < n ==> SlotPassesOn(cache.vramCapacity, trace, j, served[j], i, served[i])
    {
      var t := ServeNext(cache, trace, served);
      served := served + [t];
    }
    forall j | 0 <= j < |trace| && |Elements(trace[j..])| <= cache.vramCapacity
      ensures cache.ReadsExpert(served[j], trace[j])
    {
      RecentViewsRead(cache, trace, served, j);
    }
  }

  lemma StartsEmpty(cache: ExpertMemoryCache, trace: seq<Key>)
    requires cache.vramCapacity > 0 && cache.ramCapacity > 0 && cache.vramKeys == [] && cache.ramKeys == []
    requires cache.vramHits == cache.ramHits == cache.diskFaults == 0
    ensures TiersAt(cache.vramCapacity, cache.ramCapacity, trace, 0, cache.Now())
    ensures ViewsHold(cache.vramCapacity, trace, [], cache.vram)
  {
  }
}
