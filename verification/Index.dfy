/** The in-memory index: an open-addressing hash table whose keys live in a byte arena. */
module Index {
  import opened Bytes
  import opened ProbeTable

  const ARENA_CHUNK_SIZE: nat := 0x100_0000
  const INITIAL_SLOT_CAPACITY: nat := 1024
  const MAX_CHUNKS: nat := 0x1_0000
  const MAX_INDEX_KEY_LEN: nat := 0xFFFF
  const CHUNK_FILL: nat := ARENA_CHUNK_SIZE - MAX_INDEX_KEY_LEN
  const ARENA_KEY_BYTES: nat := CHUNK_FILL * (MAX_CHUNKS - 1)  // about 10^12

  /** Where a value lives: segment, byte offset of the value itself, length. */
  datatype Location = Location(segID: nat, valOffset: nat, valLen: nat)

  /** Chunked key storage. Chunks are only ever added, and bytes in use never change. */
  class Arena {
    const chunkSize: nat
    var chunks: seq<Bytes>
    var used: nat

    ghost predicate Valid()
      reads this
    {
      && chunkSize < TWO32
      && (chunks == [] ==> used == 0)
      && (chunks != [] ==> used <= |chunks[|chunks| - 1]| && chunkSize <= |chunks[|chunks| - 1]|)
      && |chunks| <= MAX_CHUNKS
      && (forall c :: 0 <= c < |chunks| ==> |chunks[c]| < TWO32)
    }

    static ghost predicate InUse(chunks: seq<Bytes>, used: nat, chunkIdx: nat, offset: nat, length: nat) {
      && chunkIdx < |chunks|
      && offset + length <= |chunks[chunkIdx]|
      && (chunkIdx == |chunks| - 1 ==> offset + length <= used)
    }

    /** What was stored stays where it is. */
    static ghost predicate Kept(chunks: seq<Bytes>, used: nat, chunks': seq<Bytes>, used': nat) {
      forall c: nat, o: nat, l: nat :: InUse(chunks, used, c, o, l) ==>
        InUse(chunks', used', c, o, l) && chunks'[c][o..o + l] == chunks[c][o..o + l]
    }

    ghost predicate Stored(chunkIdx: nat, offset: nat, length: nat)
      reads this
    {
      InUse(chunks, used, chunkIdx, offset, length)
    }

    /**
     * At most this many bytes of keys were needed to get here: a chunk is left only when a key
     * does not fit, so each but the last holds at least CHUNK_FILL bytes.
     */
    ghost function Filled(): nat
      reads this
    {
      if chunks == [] then 0 else (|chunks| - 1) * CHUNK_FILL + used
    }

    constructor (chunkSize: nat)
      requires chunkSize < TWO32
      ensures Valid() && chunks == [] && this.chunkSize == chunkSize
    {
      this.chunkSize := chunkSize;
      chunks := [];
      used := 0;
    }

    /** The key fits the last chunk. */
    ghost predicate Fits(key: Bytes)
      reads this
    {
      chunks != [] && used + |key| <= |chunks[|chunks| - 1]|
    }

    /** Stores the key at the end of the last chunk, or at the start of a new one exactly when it does not fit there. */
    method Put(key: Bytes) returns (chunkIdx: nat, offset: nat)
      requires Valid() && |key| < TWO32
      requires |chunks| < MAX_CHUNKS
      modifies this
      ensures Valid() && |chunks| == old(|chunks|) + if old(Fits(key)) then 0 else 1
      ensures chunkIdx == |chunks| - 1 && offset == (if old(Fits(key)) then old(used) else 0) && used == offset + |key|
      ensures !old(Fits(key)) ==> |chunks[chunkIdx]| == if |key| > chunkSize then |key| else chunkSize
      ensures Stored(chunkIdx, offset, |key|) && Get(chunkIdx, offset, |key|) == key
      ensures Kept(old(chunks), old(used), chunks, used)
      ensures chunkSize == ARENA_CHUNK_SIZE && |key| <= MAX_INDEX_KEY_LEN ==> Filled() <= old(Filled()) + |key|
    {
      hide Kept;
      EnsureRoom(key);
      var idx := |chunks| - 1;
      var off := used;
      SpliceKeeps(chunks, off, key);
      KeptThen(old(chunks), old(used), chunks, off, Spliced(chunks, off, key), off + |key|);
      chunks := Spliced(chunks, off, key);
      used := used + |key|;
      chunkIdx, offset := idx % MAX_CHUNKS, off % TWO32;
    }

    /** A new chunk when the key does not fit the last one. */
    method EnsureRoom(key: Bytes)
      requires Valid() && |key| < TWO32 && |chunks| < MAX_CHUNKS
      modifies this
      ensures Valid() && Fits(key) && Kept(old(chunks), old(used), chunks, used)
      ensures old(Fits(key)) ==> chunks == old(chunks) && used == old(used)
      ensures !old(Fits(key)) ==>
                used == 0 && |chunks| == old(|chunks|) + 1 && |chunks[|chunks| - 1]| == if |key| > chunkSize then |key| else chunkSize
      ensures chunkSize == ARENA_CHUNK_SIZE && |key| <= MAX_INDEX_KEY_LEN ==> Filled() <= old(Filled())
    {
      if |chunks| == 0 || used + |key| > |chunks[|chunks| - 1]| {
        var size := if |key| > chunkSize then |key| else chunkSize;
        chunks := chunks + [Zeros(size)];
        used := 0;
      }
    }

    function Get(chunkIdx: nat, offset: nat, length: nat): Bytes
      requires Stored(chunkIdx, offset, length)
      reads this
    {
      chunks[chunkIdx][offset..offset + length]
    }
  }

  /** The last chunk with the key copied in at off. */
  function Spliced(chunks: seq<Bytes>, off: nat, key: Bytes): (r: seq<Bytes>)
    requires chunks != [] && off + |key| <= |chunks[|chunks| - 1]|
    ensures |r| == |chunks| && |r[|r| - 1]| == |chunks[|chunks| - 1]|
    ensures forall c :: 0 <= c < |r| - 1 ==> r[c] == chunks[c]
  {
    var chunk := chunks[|chunks| - 1];
    chunks[|chunks| - 1 := chunk[..off] + key + chunk[off + |key|..]]
  }

  lemma SpliceKeepsPrefix(chunk: Bytes, off: nat, key: Bytes, o: nat, l: nat)
    requires off + |key| <= |chunk| && o + l <= off
    ensures (chunk[..off] + key + chunk[off + |key|..])[o..o + l] == chunk[o..o + l]
  {}

  lemma SpliceKeeps(chunks: seq<Bytes>, off: nat, key: Bytes)
    requires chunks != [] && off + |key| <= |chunks[|chunks| - 1]|
    ensures var chunks' := Spliced(chunks, off, key);
            && Arena.Kept(chunks, off, chunks', off + |key|)
            && chunks'[|chunks| - 1][off..off + |key|] == key
  {
    var idx, chunks' := |chunks| - 1, Spliced(chunks, off, key);
    Middle(chunks[idx][..off], key, chunks[idx][off + |key|..]);
    forall c: nat, o: nat, l: nat | Arena.InUse(chunks, off, c, o, l)
      ensures Arena.InUse(chunks', off + |key|, c, o, l) && chunks'[c][o..o + l] == chunks[c][o..o + l]
    {
      if c == idx {
        SpliceKeepsPrefix(chunks[idx], off, key, o, l);
      }
    }
  }

  lemma KeptThen(a: seq<Bytes>, ua: nat, b: seq<Bytes>, ub: nat, c: seq<Bytes>, uc: nat)
    requires Arena.Kept(a, ua, b, ub) && Arena.Kept(b, ub, c, uc)
    ensures Arena.Kept(a, ua, c, uc)
  {}

  datatype SlotState = SlotEmpty | SlotLive | SlotTombstone

  datatype Slot = Slot(state: SlotState, hash: nat, chunkIdx: nat, keyOffset: nat, keyLen: nat, loc: Location)

  lemma InitialTable(hash: Hash)
    ensures var t := EmptyTable<Location>(INITIAL_SLOT_CAPACITY);
            && |t| == INITIAL_SLOT_CAPACITY && (forall i :: 0 <= i < |t| ==> t[i].Empty?) && IsPow2(|t|)
            && WellFormed(t, hash) && Stores(t, map[]) && FullCount(t) == 0 && TombCount(t) == 0
  {
    hide WellFormed, Stores, FullCount, TombCount;
    EmptyTableIsEmpty<Location>(INITIAL_SLOT_CAPACITY, hash);
    assert IsPow2(16) && IsPow2(64) && IsPow2(256) && IsPow2(1024);
  }

  const EMPTY_SLOT := Slot(SlotEmpty, 0, 0, 0, 0, Location(0, 0, 0))

  class Index {
    const hash: Hash        // the seeded hash: any function of the key
    const arena: Arena
    var slots: array<Slot>
    var mask: nat
    var count: nat
    var tomb: nat
    ghost var cells: Table<Location>
    ghost var model: map<Bytes, Location>

    ghost predicate Matches(s: Slot, c: Cell<Location>)
      reads arena
    {
      match c
      case Empty => s.state == SlotEmpty
      case Tomb => s.state == SlotTombstone
      case Full(k, loc) =>
        && s.state == SlotLive && s.hash == hash(k) && s.loc == loc && s.keyLen == |k|
        && arena.Stored(s.chunkIdx, s.keyOffset, s.keyLen)
        && arena.Get(s.chunkIdx, s.keyOffset, s.keyLen) == k
    }

    ghost predicate Linked()
      reads this, slots, arena
    {
      && arena.Valid() && arena.chunkSize == ARENA_CHUNK_SIZE
      && |cells| == slots.Length && mask == slots.Length - 1
      && (forall i :: 0 <= i < slots.Length ==> Matches(slots[i], cells[i]))
    }

    ghost predicate Valid()
      reads this, slots, arena
    {
      && Linked()
      && WellFormed(cells, hash) && Stores(cells, model)
      && INITIAL_SLOT_CAPACITY <= |cells| && IsPow2(|cells|)
      && count == FullCount(cells) && tomb == TombCount(cells) && count + tomb < |cells|
    }

    /** Fewer than 65536 arena chunks: the uint16 chunk number does not wrap. */
    ghost predicate HasRoom()
      reads this, arena
    {
      |arena.chunks| < MAX_CHUNKS
    }

    /** Keys of 10^12 bytes in all always fit. */
    lemma RoomForKeys()
      requires Valid() && arena.Filled() < ARENA_KEY_BYTES
      ensures HasRoom() && ARENA_KEY_BYTES > 1_000_000_000_000
    {}

    constructor (hash: Hash)
      ensures Valid() && model == map[] && fresh(slots) && fresh(arena) && HasRoom() && arena.Filled() == 0
      ensures slots.Length == 1024 && tomb == 0 && arena.chunkSize == 0x100_0000 && arena.chunks == []
    {
      this.hash := hash;
      arena := new Arena(ARENA_CHUNK_SIZE);
      slots := new Slot[INITIAL_SLOT_CAPACITY](_ => EMPTY_SLOT);
      mask := INITIAL_SLOT_CAPACITY - 1;
      count, tomb := 0, 0;
      cells := EmptyTable(INITIAL_SLOT_CAPACITY);
      model := map[];
      new;
      hide WellFormed, Stores, FullCount, TombCount, IsPow2, EmptyTable;
      InitialTable(hash);
    }

    function KeyAt(s: Slot): Bytes
      requires arena.Stored(s.chunkIdx, s.keyOffset, s.keyLen)
      reads arena
    {
      arena.Get(s.chunkIdx, s.keyOffset, s.keyLen)
    }

    /** The probe loop of get and delete: stops at key's slot, at an empty slot, or after a full cycle. */
    method FindLive(key: Bytes) returns (i: nat, found: bool)
      requires Valid()
      ensures found <==> key in model
      ensures found ==> HasKey(cells, i, key)
    {
      hide WellFormed, Stores, FullCount, TombCount, IsPow2, And;
      var h := hash(key);
      i := And(h, mask);
      ghost var n, home := slots.Length, Home(hash, key, slots.Length);
      var probes := 0;
      while probes <= mask
        invariant probes <= n && i == Pos(home, probes, n)
        invariant NotSeen(cells, hash, key, probes)
      {
        assert Matches(slots[i], cells[i]);
        match slots[i].state {
          case SlotEmpty =>
            ProbeDecides(cells, hash, model, key, probes);
            return i, false;
          case SlotLive =>
            if slots[i].hash == h && KeyAt(slots[i]) == key {
              EntryInMap(cells, model, i);
              return i, true;
            }
          case SlotTombstone =>
        }
        Advance(cells, hash, key, probes);
        i := And(i + 1, mask);
        probes := probes + 1;
      }
      ProbeDecides(cells, hash, model, key, probes);
      return i, false;
    }

    method Get(key: Bytes) returns (loc: Option<Location>)
      requires Valid()
      ensures loc == if key in model then Some(model[key]) else None
    {
      var i, found := FindLive(key);
      if !found {
        return None;
      }
      assert Matches(slots[i], cells[i]);
      EntryInMap(cells, model, i);
      return Some(slots[i].loc);
    }

    /** The probe loop of put: key's own slot, else the first tombstone met, else the empty slot. */
    method FindTarget(key: Bytes) returns (target: nat, live: bool, reused: bool, ghost r: nat)
      requires Valid()
      ensures live <==> key in model
      ensures live ==> HasKey(cells, target, key)
      ensures !live ==> r < |cells| && target == Pos(Home(hash, key, |cells|), r, |cells|) && NoGap(cells, hash, key, r)
      ensures !live ==> if reused then cells[target].Tomb? else cells[target].Empty?
    {
      hide WellFormed, Stores, FullCount, TombCount, IsPow2, And;
      var h := hash(key);
      var i := And(h, mask);
      ghost var n, home := slots.Length, Home(hash, key, slots.Length);
      ghost var e := EmptySlotLeft(cells);
      target, reused, r := i, false, 0;
      var probes := 0;
      while probes <= mask
        invariant probes <= Dist(home, e, n) && i == Pos(home, probes, n)
        invariant NotSeen(cells, hash, key, probes) && NoGap(cells, hash, key, probes)
        invariant reused ==> r < probes && target == Pos(home, r, n) && cells[target].Tomb?
      {
        assert Matches(slots[i], cells[i]);
        match slots[i].state {
          case SlotEmpty =>
            ProbeDecides(cells, hash, model, key, probes);
            if reused {
              return target, false, true, r;
            }
            return i, false, false, probes;
          case SlotTombstone =>
            if !reused {
              target, reused, r := i, true, probes;
            }
          case SlotLive =>
            if slots[i].hash == h && KeyAt(slots[i]) == key {
              EntryInMap(cells, model, i);
              return i, true, false, probes;
            }
        }
        Advance(cells, hash, key, probes);
        AdvanceTowards(cells, hash, key, probes, e);
        i := And(i + 1, mask);
        probes := probes + 1;
      }
      assert false;  // so the forced rehash and retry of the source never run
    }

    /** Returns the location it replaces. */
    method Put(key: Bytes, loc: Location) returns (prev: Option<Location>)
      requires Valid() && HasRoom() && |key| <= MAX_INDEX_KEY_LEN
      modifies this, slots, arena
      ensures Valid() && (slots == old(slots) || fresh(slots))
      ensures model == old(model)[key := loc]
      ensures prev == if key in old(model) then Some(old(model)[key]) else None
      ensures key in old(model) ==> arena.chunks == old(arena.chunks)
      ensures arena.Filled() <= old(arena.Filled()) + |key|
      ensures old(slots.Length) <= 0x8_0000_0000_0000 ==>
                slots.Length == if old(20 * (|model| + tomb) >= 13 * slots.Length && 2 * |model| >= slots.Length)
                                then 2 * old(slots.Length) else old(slots.Length)
    {
      hide Valid, NoGap, Home, Pos, HasKey, Arena.Filled;
      MaybeRehash();
      var i, live, reused, r := FindTarget(key);
      if live {
        prev := ReplaceLoc(i, key, loc);
      } else {
        FillSlot(i, reused, key, loc, r);
        prev := None;
      }
    }

    /** The key is live in slot i. */
    method ReplaceLoc(i: nat, key: Bytes, loc: Location) returns (prev: Option<Location>)
      requires Valid() && HasKey(cells, i, key)
      modifies slots, this`cells, this`model
      ensures Valid() && key in old(model) && model == old(model)[key := loc] && prev == Some(old(model)[key])
    {
      hide WellFormed, Stores, FullCount, TombCount, IsPow2;
      CountUpdate(cells, i, Full(key, loc));
      assert Matches(slots[i], cells[i]);
      EntryInMap(cells, model, i);
      Overwrite(cells, hash, model, i, loc);
      prev := Some(slots[i].loc);
      slots[i] := slots[i].(loc := loc);
      cells := cells[i := Full(key, loc)];
      model := model[key := loc];
    }

    /** The key is not live; slot i is the one to fill. */
    method FillSlot(i: nat, reused: bool, key: Bytes, loc: Location, ghost r: nat)
      requires Valid() && HasRoom() && |key| <= MAX_INDEX_KEY_LEN && key !in model
      requires r < |cells| && i == Pos(Home(hash, key, |cells|), r, |cells|) && NoGap(cells, hash, key, r)
      requires if reused then cells[i].Tomb? else cells[i].Empty?
      requires UnderLoadFactor(count + tomb, slots.Length)
      modifies slots, arena, this`count, this`tomb, this`cells, this`model
      ensures Valid() && model == old(model)[key := loc]
      ensures arena.Filled() <= old(arena.Filled()) + |key|
    {
      hide WellFormed, Stores, NoGap, FullCount, TombCount, IsPow2, Home, Pos;
      CountUpdate(cells, i, Full(key, loc));
      Insert(cells, hash, model, key, loc, r);
      if reused {
        tomb := tomb - 1;
      }
      WriteSlot(i, key, hash(key), loc);
      count := count + 1;
      model := model[key := loc];
    }

    /** Returns the location it removes. */
    method Delete(key: Bytes) returns (prev: Option<Location>)
      requires Valid()
      modifies this, slots
      ensures Valid() && slots == old(slots)
      ensures model == old(model) - {key}
      ensures prev == if key in old(model) then Some(old(model)[key]) else None
    {
      hide WellFormed, Stores, FullCount, TombCount, IsPow2;
      var i, found := FindLive(key);
      if !found {
        return None;
      }
      assert Matches(slots[i], cells[i]);
      EntryInMap(cells, model, i);
      Bury(cells, hash, model, i);
      CountUpdate(cells, i, Tomb);
      prev := Some(slots[i].loc);
      slots[i] := slots[i].(state := SlotTombstone);
      count := count - 1;
      tomb := tomb + 1;
      cells := cells[i := Tomb];
      model := model - {key};
    }

    method WriteSlot(i: nat, key: Bytes, h: nat, loc: Location)
      requires Linked() && i < slots.Length && h == hash(key)
      requires HasRoom() && |key| <= MAX_INDEX_KEY_LEN
      modifies slots, arena, this`cells
      ensures Linked() && cells == old(cells)[i := Full(key, loc)]
      ensures arena.Filled() <= old(arena.Filled()) + |key|
    {
      var chunkIdx, keyOffset := arena.Put(key);
      slots[i] := Slot(SlotLive, h, chunkIdx, keyOffset, |key| % 0x1_0000, loc);
      cells := cells[i := Full(key, loc)];
    }

    lemma LoadTest()
      requires Valid()
      ensures count == |model|
      ensures slots.Length <= 0x8_0000_0000_0000 ==>
                (UnderLoadFactor(count + tomb, slots.Length) <==> 20 * (|model| + tomb) < 13 * slots.Length)
    {
      hide WellFormed, Stores, FullCount, TombCount, IsPow2, UnderLoadFactor;
      LenIsModelSize();
      if slots.Length <= 0x8_0000_0000_0000 { LoadFactorIsExact(count + tomb, slots.Length); }
    }

    lemma Doubled()
      requires Valid()
      ensures IsPow2(slots.Length) && IsPow2(2 * slots.Length) && count < slots.Length
      ensures INITIAL_SLOT_CAPACITY <= slots.Length
    {
      hide WellFormed, Stores, FullCount, TombCount;
    }

    lemma HalfFull(n: nat, capacity: nat)
      requires 2 * n <= capacity && capacity > 0
      ensures UnderLoadFactor(n, capacity)
    {}

    /** Afterwards the table is under the load factor, so a probe for an empty slot cannot fail. */
    method MaybeRehash()
      requires Valid()
      modifies this
      ensures Valid() && model == old(model) && (slots == old(slots) || fresh(slots))
      ensures UnderLoadFactor(count + tomb, slots.Length)
      ensures old(slots.Length <= 0x8_0000_0000_0000 && 20 * (|model| + tomb) < 13 * slots.Length) ==> unchanged(this)
      ensures old(slots.Length <= 0x8_0000_0000_0000 && 20 * (|model| + tomb) >= 13 * slots.Length) ==>
                tomb == 0 && slots.Length == old(if 2 * |model| >= slots.Length then 2 * slots.Length else slots.Length)
    {
      hide WellFormed, Stores, FullCount, TombCount, IsPow2, UnderLoadFactor;
      var occupied := count + tomb;
      LoadTest();
      if UnderLoadFactor(occupied, slots.Length) {
        return;
      }
      Doubled();
      Rehash(GrowTargetCapacity());
      HalfFull(count, slots.Length);
    }

    function GrowTargetCapacity(): nat
      reads this, slots
    {
      if count * 2 >= slots.Length then slots.Length * 2 else slots.Length
    }

    method Rehash(newCap: nat)
      requires Valid() && IsPow2(newCap) && INITIAL_SLOT_CAPACITY <= newCap && count < newCap
      modifies this
      ensures Valid() && model == old(model) && fresh(slots)
      ensures slots.Length == newCap && count == old(count) && tomb == 0
    {
      hide WellFormed, Stores, FullCount, TombCount, IsPow2, MapOf;
      StoresUnique(cells, hash, model);
      var oldSlots := slots;
      ghost var oldCells := cells;
      ResetSlots(newCap);
      for i := 0 to oldSlots.Length
        invariant model == old(model) && tomb == 0 && fresh(slots) && slots.Length == newCap
        invariant Rebuilt(oldSlots, oldCells, i)
      {
        ReinsertNth(oldSlots, oldCells, i);
      }
      assert oldCells[..oldSlots.Length] == oldCells;
    }

    method ResetSlots(newCap: nat)
      requires Valid() && INITIAL_SLOT_CAPACITY <= newCap && count < newCap
      modifies this
      ensures fresh(slots) && slots.Length == newCap && model == old(model) && tomb == 0
      ensures Rebuilt(old(slots), old(cells), 0)
    {
      hide WellFormed, Stores, IsPow2;
      slots := new Slot[newCap](_ => EMPTY_SLOT);
      mask := newCap - 1;
      tomb := 0;
      count := 0;
      cells := EmptyTable(newCap);
      EmptyTableIsEmpty<Location>(newCap, hash);
      assert old(cells)[..0] == [];
    }

    /** The new table holds exactly the entries of the first i old slots, and no tombstone. */
    ghost predicate Rebuilt(oldSlots: array<Slot>, oldCells: Table<Location>, i: nat)
      reads this, slots, arena, oldSlots
    {
      && Linked() && WellFormed(oldCells, hash)
      && oldSlots != slots && |oldCells| == oldSlots.Length && i <= |oldCells|
      && (forall j :: 0 <= j < oldSlots.Length ==> Matches(oldSlots[j], oldCells[j]))
      && WellFormed(cells, hash) && Stores(cells, MapOf(oldCells[..i]))
      && count == FullCount(cells) == FullCount(oldCells[..i]) && TombCount(cells) == 0
      && FullCount(oldCells) < |cells|
    }

    method ReinsertNth(oldSlots: array<Slot>, ghost oldCells: Table<Location>, i: nat)
      requires i < oldSlots.Length && Rebuilt(oldSlots, oldCells, i)
      modifies this`count, this`cells, slots
      ensures Rebuilt(oldSlots, oldCells, i + 1) && cells != [] && |cells| == old(|cells|)
    {
      hide WellFormed, Stores, TombCount, IsPow2;
      assert oldCells[..i + 1][..i] == oldCells[..i];
      assert Matches(oldSlots[i], oldCells[i]);
      if oldSlots[i].state == SlotLive {
        FullCountPrefix(oldCells, i + 1);
        NotBefore(oldCells, hash, i);
        Reinsert(oldSlots[i], oldCells[i].key, MapOf(oldCells[..i]));
      }
    }

    method FindEmpty(h: nat, ghost key: Bytes) returns (i: nat, ghost r: nat)
      requires Linked() && 0 < slots.Length && h == hash(key)
      requires FullCount(cells) + TombCount(cells) < |cells|
      ensures r < |cells| && i == Pos(Home(hash, key, |cells|), r, |cells|)
      ensures NoGap(cells, hash, key, r) && cells[i].Empty?
    {
      ghost var n, home := slots.Length, Home(hash, key, slots.Length);
      ghost var e := EmptySlotLeft(cells);
      i, r := And(h, mask), 0;
      assert Matches(slots[i], cells[i]);
      while slots[i].state != SlotEmpty
        invariant r <= Dist(home, e, n) && i == Pos(home, r, n)
        invariant NoGap(cells, hash, key, r) && Matches(slots[i], cells[i])
        decreases n - r
      {
        AdvanceTowards(cells, hash, key, r, e);
        i := And(i + 1, mask);
        r := r + 1;
        assert Matches(slots[i], cells[i]);
      }
    }

    /** Places a slot whose key is already in the arena. */
    method Reinsert(s: Slot, ghost key: Bytes, ghost m: map<Bytes, Location>)
      requires Linked() && Matches(s, Full(key, s.loc))
      requires WellFormed(cells, hash) && Stores(cells, m) && key !in m
      requires count == FullCount(cells) && TombCount(cells) == 0 && count < slots.Length
      modifies this`count, this`cells, slots
      ensures Linked() && WellFormed(cells, hash) && Stores(cells, m[key := s.loc])
      ensures count == old(count) + 1 == FullCount(cells) && TombCount(cells) == 0 && |cells| == old(|cells|)
    {
      hide WellFormed, Stores, TombCount, IsPow2, FullCount, NoGap;
      var i, r := FindEmpty(s.hash, key);
      Insert(cells, hash, m, key, s.loc, r);
      CountUpdate(cells, i, Full(key, s.loc));
      slots[i] := s;
      cells := cells[i := Full(key, s.loc)];
      count := count + 1;
    }

    /** Calls fn for every live entry, stopping when it returns false. */
    method ForEach(fn: (Bytes, Location) -> bool) returns (visited: seq<(Bytes, Location)>)
      requires Valid()
      ensures forall j :: 0 <= j < |visited| ==> visited[j].0 in model && model[visited[j].0] == visited[j].1
      ensures forall j, k :: 0 <= j < k < |visited| ==> visited[j].0 != visited[k].0
      ensures forall j :: 0 <= j < |visited| - 1 ==> fn(visited[j].0, visited[j].1)
      ensures |visited| == |model| || (visited != [] && !fn(visited[|visited| - 1].0, visited[|visited| - 1].1))
    {
      hide WellFormed, Stores, TombCount, FullCount, IsPow2, VisitsUpTo;
      visited := [];
      ghost var at: seq<nat> := [];  // the slot of each visit
      StoresUnique(cells, hash, model);
      NoVisits(cells);
      for i := 0 to slots.Length
        invariant VisitsUpTo(cells, i, visited, at)
        invariant forall j :: 0 <= j < |visited| ==> fn(visited[j].0, visited[j].1)
      {
        assert Matches(slots[i], cells[i]);
        NextVisit(cells, i, visited, at);
        if slots[i].state != SlotLive {
          continue;
        }
        var key, loc := KeyAt(slots[i]), slots[i].loc;
        visited := visited + [(key, loc)];
        at := at + [i];
        if !fn(key, loc) {
          VisitsInModel(cells, hash, model, i + 1, visited, at);
          return;
        }
      }
      VisitsInModel(cells, hash, model, slots.Length, visited, at);
      assert cells[..slots.Length] == cells;
    }

    function Len(): nat
      reads this
    {
      count
    }

    lemma LenIsModelSize()
      requires Valid()
      ensures Len() == |model|
    {
      StoresUnique(cells, hash, model);
    }
  }

  /** visited lists the entries of the first n cells, in order; at says in which cells. */
  ghost predicate VisitsUpTo(t: Table<Location>, n: nat, visited: seq<(Bytes, Location)>, at: seq<nat>) {
    && n <= |t| && |visited| == |at| == FullCount(t[..n])
    && (forall j :: 0 <= j < |at| ==> at[j] < n && t[at[j]] == Full(visited[j].0, visited[j].1))
    && (forall j, k :: 0 <= j < k < |at| ==> at[j] < at[k])
  }

  lemma NoVisits(t: Table<Location>)
    ensures VisitsUpTo(t, 0, [], [])
  {}

  lemma NextVisit(t: Table<Location>, i: nat, visited: seq<(Bytes, Location)>, at: seq<nat>)
    requires VisitsUpTo(t, i, visited, at) && i < |t|
    ensures match t[i]
      case Full(k, loc) => VisitsUpTo(t, i + 1, visited + [(k, loc)], at + [i])
      case _ => VisitsUpTo(t, i + 1, visited, at)
  {
    assert t[..i + 1][..i] == t[..i];
  }

  lemma VisitsInModel(t: Table<Location>, h: Hash, m: map<Bytes, Location>, n: nat, visited: seq<(Bytes,
        Location)>, at: seq<nat>)
    requires WellFormed(t, h) && Stores(t, m) && VisitsUpTo(t, n, visited, at)
    ensures |visited| == FullCount(t[..n])
    ensures forall j :: 0 <= j < |visited| ==> visited[j].0 in m && m[visited[j].0] == visited[j].1
    ensures forall j, k :: 0 <= j < k < |visited| ==> visited[j].0 != visited[k].0
  {
    hide WellFormed, Stores, FullCount;
    forall j | 0 <= j < |visited| ensures visited[j].0 in m && m[visited[j].0] == visited[j].1 {
      EntryInMap(t, m, at[j]);
    }
    forall j, k | 0 <= j < k < |visited| ensures visited[j].0 != visited[k].0 {
      DistinctKeys(t, h, at[j], at[k]);
    }
  }

  lemma {:induction false} FullCountPrefix<V>(t: Table<V>, i: nat)
    requires i <= |t|
    ensures FullCount(t[..i]) <= FullCount(t)
    decreases |t|
  {
    if i == |t| {
      assert t[..i] == t;
    } else {
      FullCountPrefix(t[..|t| - 1], i);
      assert t[..|t| - 1][..i] == t[..i];
    }
  }

  lemma NotBefore<V>(t: Table<V>, h: Hash, i: nat)
    requires WellFormed(t, h) && i < |t| && t[i].Full?
    ensures t[i].key !in MapOf(t[..i])
  {
    MapOfKeys(t[..i], t[i].key);
    forall j ensures !HasKey(t[..i], j, t[i].key) {
      assert 0 <= j < i && t[j].Full? ==> t[j].key != t[i].key;
    }
  }
}
