/** Linear probing with tombstones, on values: what makes every probe loop of the index right. */
module ProbeTable {
  import opened Bytes

  datatype Cell<+V> = Empty | Tomb | Full(key: Bytes, value: V)

  type Table<V> = seq<Cell<V>>
  type Hash = Bytes -> nat

  /** i & mask, for mask + 1 a power of two. */
  function And(i: nat, mask: nat): (r: nat)
    ensures r <= mask
  {
    i % (mask + 1)
  }

  function Home(h: Hash, key: Bytes, n: nat): (r: nat)
    requires n > 0
    ensures r < n
  {
    And(h(key), n - 1)
  }

  /** The slot looked at after p steps. */
  function Pos(home: nat, p: nat, n: nat): (r: nat)
    requires home < n && p <= n
    ensures r < n
  {
    if home + p < n then home + p else home + p - n
  }

  /** How many steps it takes to reach slot i. */
  function Dist(home: nat, i: nat, n: nat): (r: nat)
    requires home < n && i < n
    ensures r < n && Pos(home, r, n) == i
  {
    if home <= i then i - home else i + n - home
  }

  lemma PosStep(home: nat, p: nat, n: nat)
    requires home < n && p < n
    ensures And(Pos(home, p, n) + 1, n - 1) == Pos(home, p + 1, n)
  {
    var i := Pos(home, p, n) + 1;
    if i < n { assert i % n == i; } else { assert n % n == 0; }
  }

  ghost predicate IsPow2(n: nat) {
    n == 1 || (n > 1 && n % 2 == 0 && IsPow2(n / 2))
  }

  /** Bitwise and. */
  function BitAnd(a: nat, b: nat): nat {
    if a == 0 || b == 0 then 0 else 2 * BitAnd(a / 2, b / 2) + (a % 2) * (b % 2)
  }

  lemma DoubleRemainder(i: nat, m: nat)
    requires m > 0
    ensures i % (2 * m) == 2 * (i / 2 % m) + i % 2
  {
    var k, r := i / 2 / m, i / 2 % m;
    assert i / 2 == m * k + r;
    assert i == (2 * m) * k + (2 * r + i % 2);
    RemainderIs(i, 2 * m, k, 2 * r + i % 2);
  }

  lemma RemainderIs(i: nat, n: nat, k: nat, r: nat)
    requires r < n && i == n * k + r
    ensures i % n == r
  {
    var d := i / n - k;
    assert n * d + i % n == r;
    AtLeastOnce(n, d);
  }

  lemma AtLeastOnce(n: nat, d: int)
    ensures d >= 1 ==> n * d >= n
    ensures d <= -1 ==> n * d <= 0 - n
  {}

  /** h & mask, as the code writes it, is the remainder And stands for. */
  lemma {:induction false} MaskIsRemainder(i: nat, n: nat)
    requires n > 0 && IsPow2(n)
    ensures BitAnd(i, n - 1) == And(i, n - 1)
    decreases n
  {
    if n > 1 {
      var m := n / 2;
      MaskIsRemainder(i / 2, m);
      DoubleRemainder(i, m);
      assert (n - 1) / 2 == m - 1 && (n - 1) % 2 == 1;
    }
  }

  // ----- the load factor -------------------------------------------------------------

  /** 0.65 as a float64, times 2^53. */
  const MAX_LOAD_FACTOR: nat := 5854679515581645
  const TWO53: nat := 0x20_0000_0000_0000

  /** float64(occupied) < maxLoadFactor * float64(capacity): exact, since capacity is a power of two. */
  predicate UnderLoadFactor(occupied: nat, capacity: nat) {
    occupied * TWO53 < MAX_LOAD_FACTOR * capacity
  }

  lemma HalfOfFives(n: nat)
    requires n % 2 == 0 && n % 5 == 0
    ensures n / 2 % 5 == 0
  {}

  lemma {:induction false} Pow2NotFives(n: nat)
    requires IsPow2(n)
    ensures n % 5 != 0
  {
    if n > 1 {
      Pow2NotFives(n / 2);
      if n % 5 == 0 { HalfOfFives(n); }
    }
  }

  lemma NoTie(occupied: nat, capacity: nat)
    requires capacity % 5 != 0
    ensures 20 * occupied != 13 * capacity
  {}

  /** For every capacity a table can reach the float64 test is the test against 13/20 exactly. */
  lemma LoadFactorIsExact(occupied: nat, capacity: nat)
    requires IsPow2(capacity) && capacity <= 0x8_0000_0000_0000
    ensures UnderLoadFactor(occupied, capacity) <==> 20 * occupied < 13 * capacity
  {
    Pow2NotFives(capacity);
    NoTie(occupied, capacity);
    hide IsPow2;
    assert 20 * MAX_LOAD_FACTOR == 13 * TWO53 + 4;
  }

  // ----- well-formed tables ------------------------------------------------------

  ghost predicate HasKey<V>(t: Table<V>, i: int, key: Bytes) {
    0 <= i < |t| && t[i].Full? && t[i].key == key
  }

  /** None of the first p slots of key's probe path is empty. */
  ghost predicate NoGap<V>(t: Table<V>, h: Hash, key: Bytes, p: nat)
    requires 0 < |t| && p <= |t|
  {
    forall q :: 0 <= q < p ==> !t[Pos(Home(h, key, |t|), q, |t|)].Empty?
  }

  /** None of the first p slots of key's probe path holds key. */
  ghost predicate NotSeen<V>(t: Table<V>, h: Hash, key: Bytes, p: nat)
    requires 0 < |t| && p <= |t|
  {
    forall q :: 0 <= q < p ==> !HasKey(t, Pos(Home(h, key, |t|), q, |t|), key)
  }

  /** Every stored key is reachable from its home slot, and none is stored twice. */
  ghost predicate WellFormed<V>(t: Table<V>, h: Hash) {
    && 0 < |t|
    && (forall i :: 0 <= i < |t| && t[i].Full? ==>
          NoGap(t, h, t[i].key, Dist(Home(h, t[i].key, |t|), i, |t|)))
    && (forall i, j :: 0 <= i < j < |t| && t[i].Full? && t[j].Full? ==> t[i].key != t[j].key)
  }

  /** The table stores exactly the map m. */
  ghost predicate Stores<V>(t: Table<V>, m: map<Bytes, V>) {
    && (forall i :: 0 <= i < |t| && t[i].Full? ==> t[i].key in m && m[t[i].key] == t[i].value)
    && (forall k :: k in m ==> exists i :: HasKey(t, i, k))
  }

  /** A probe that meets an empty slot, or has been all around, has proved the key absent. */
  lemma ProbeDecides<V>(t: Table<V>, h: Hash, m: map<Bytes, V>, key: Bytes, p: nat)
    requires WellFormed(t, h) && Stores(t, m)
    requires p <= |t| && NotSeen(t, h, key, p)
    requires p == |t| || t[Pos(Home(h, key, |t|), p, |t|)].Empty?
    ensures key !in m
  {}

  /** One step past a slot that is not empty and does not hold the key. */
  lemma Advance<V>(t: Table<V>, h: Hash, key: Bytes, p: nat)
    requires 0 < |t| && p < |t| && NotSeen(t, h, key, p)
    requires !HasKey(t, Pos(Home(h, key, |t|), p, |t|), key)
    ensures NotSeen(t, h, key, p + 1)
    ensures And(Pos(Home(h, key, |t|), p, |t|) + 1, |t| - 1) == Pos(Home(h, key, |t|), p + 1, |t|)
  {
    PosStep(Home(h, key, |t|), p, |t|);
  }

  /** An empty slot e further on the probe path is not passed. */
  lemma AdvanceTowards<V>(t: Table<V>, h: Hash, key: Bytes, p: nat, e: nat)
    requires 0 < |t| && e < |t| && t[e].Empty? && p <= Dist(Home(h, key, |t|), e, |t|) && NoGap(t, h, key, p)
    requires !t[Pos(Home(h, key, |t|), p, |t|)].Empty?
    ensures p < Dist(Home(h, key, |t|), e, |t|) && NoGap(t, h, key, p + 1)
    ensures And(Pos(Home(h, key, |t|), p, |t|) + 1, |t| - 1) == Pos(Home(h, key, |t|), p + 1, |t|)
  {
    PosStep(Home(h, key, |t|), p, |t|);
  }

  lemma EntryInMap<V>(t: Table<V>, m: map<Bytes, V>, i: nat)
    requires Stores(t, m) && i < |t| && t[i].Full?
    ensures t[i].key in m && m[t[i].key] == t[i].value
  {}

  lemma DistinctKeys<V>(t: Table<V>, h: Hash, i: nat, j: nat)
    requires WellFormed(t, h) && i < j < |t| && t[i].Full? && t[j].Full?
    ensures t[i].key != t[j].key
  {}

  lemma Overwrite<V>(t: Table<V>, h: Hash, m: map<Bytes, V>, i: nat, v: V)
    requires WellFormed(t, h) && Stores(t, m) && i < |t| && t[i].Full?
    ensures WellFormed(t[i := Full(t[i].key, v)], h)
    ensures Stores(t[i := Full(t[i].key, v)], m[t[i].key := v])
  {
    var u := t[i := Full(t[i].key, v)];
    forall j | 0 <= j < |u| && u[j].Full?
      ensures NoGap(u, h, u[j].key, Dist(Home(h, u[j].key, |u|), j, |u|))
    {
      assert NoGap(t, h, t[j].key, Dist(Home(h, t[j].key, |t|), j, |t|));
    }
    var m' := m[t[i].key := v];
    forall k | k in m' ensures exists j :: HasKey(u, j, k) {
      var j :| HasKey(t, j, k);
      assert HasKey(u, j, k);
    }
  }

  /** Filling the slot r steps from home keeps every key reachable, a tombstone slot included. */
  lemma Insert<V>(t: Table<V>, h: Hash, m: map<Bytes, V>, key: Bytes, v: V, r: nat)
    requires WellFormed(t, h) && Stores(t, m) && key !in m
    requires r < |t| && NoGap(t, h, key, r) && !t[Pos(Home(h, key, |t|), r, |t|)].Full?
    ensures var u := t[Pos(Home(h, key, |t|), r, |t|) := Full(key, v)];
            WellFormed(u, h) && Stores(u, m[key := v])
  {
    var n, home := |t|, Home(h, key, |t|);
    var target := Pos(home, r, n);
    var u := t[target := Full(key, v)];
    assert Dist(home, target, n) == r;
    forall j | 0 <= j < n && u[j].Full?
      ensures NoGap(u, h, u[j].key, Dist(Home(h, u[j].key, n), j, n))
    {
      if j != target {
        assert NoGap(t, h, t[j].key, Dist(Home(h, t[j].key, n), j, n));
      }
    }
    var m' := m[key := v];
    forall k | k in m' ensures exists j :: HasKey(u, j, k) {
      if k == key {
        assert HasKey(u, target, k);
      } else {
        var j :| HasKey(t, j, k);
        assert HasKey(u, j, k);
      }
    }
  }

  lemma Bury<V>(t: Table<V>, h: Hash, m: map<Bytes, V>, i: nat)
    requires WellFormed(t, h) && Stores(t, m) && i < |t| && t[i].Full?
    ensures WellFormed(t[i := Tomb], h) && Stores(t[i := Tomb], m - {t[i].key})
  {
    var u := t[i := Tomb];
    forall j | 0 <= j < |u| && u[j].Full?
      ensures NoGap(u, h, u[j].key, Dist(Home(h, u[j].key, |u|), j, |u|))
    {
      assert NoGap(t, h, t[j].key, Dist(Home(h, t[j].key, |t|), j, |t|));
    }
    forall k | k in m - {t[i].key} ensures exists j :: HasKey(u, j, k) {
      var j :| HasKey(t, j, k);
      assert HasKey(u, j, k);
    }
  }

  // ----- counting -------------------------------------------------------------------

  function FullCount<V>(t: Table<V>): nat {
    if t == [] then 0 else FullCount(t[..|t| - 1]) + if t[|t| - 1].Full? then 1 else 0
  }

  function TombCount<V>(t: Table<V>): nat {
    if t == [] then 0 else TombCount(t[..|t| - 1]) + if t[|t| - 1].Tomb? then 1 else 0
  }

  lemma {:induction false} CountUpdate<V>(t: Table<V>, i: nat, c: Cell<V>)
    requires i < |t|
    ensures FullCount(t[i := c]) == FullCount(t) - (if t[i].Full? then 1 else 0) + (if c.Full? then 1 else 0)
    ensures TombCount(t[i := c]) == TombCount(t) - (if t[i].Tomb? then 1 else 0) + (if c.Tomb? then 1 else 0)
  {
    var n := |t| - 1;
    if i == n {
      assert t[i := c][..n] == t[..n];
    } else {
      assert t[i := c][..n] == t[..n][i := c];
      CountUpdate(t[..n], i, c);
    }
  }

  lemma {:induction false} EmptySlotLeft<V>(t: Table<V>) returns (e: nat)
    requires FullCount(t) + TombCount(t) < |t|
    ensures e < |t| && t[e].Empty?
  {
    var n := |t| - 1;
    if t[n].Empty? {
      e := n;
    } else {
      e := EmptySlotLeft(t[..n]);
    }
  }

  /** The map of the entries in t, later entries overriding earlier ones. */
  function MapOf<V>(t: Table<V>): map<Bytes, V> {
    if t == [] then map[] else
    var m := MapOf(t[..|t| - 1]);
    if t[|t| - 1].Full? then m[t[|t| - 1].key := t[|t| - 1].value] else m
  }

  lemma {:induction false} MapOfKeys<V>(t: Table<V>, k: Bytes)
    ensures k in MapOf(t) <==> exists i :: HasKey(t, i, k)
  {
    if t != [] {
      var n := |t| - 1;
      MapOfKeys(t[..n], k);
      if i :| HasKey(t[..n], i, k) { assert HasKey(t, i, k); }
      if i :| HasKey(t, i, k) { assert i < n ==> HasKey(t[..n], i, k); }
      assert t[n].Full? && t[n].key == k ==> HasKey(t, n, k);
    }
  }

  ghost predicate Distinct<V>(t: Table<V>) {
    forall i, j :: 0 <= i < j < |t| && t[i].Full? && t[j].Full? ==> t[i].key != t[j].key
  }

  lemma {:induction false} MapOfSize<V>(t: Table<V>)
    requires Distinct(t)
    ensures |MapOf(t)| == FullCount(t)
  {
    if t != [] {
      var n := |t| - 1;
      MapOfSize(t[..n]);
      if t[n].Full? { MapOfKeys(t[..n], t[n].key); }
    }
  }

  lemma {:induction false} MapOfStores<V>(t: Table<V>, i: nat)
    requires Distinct(t) && i < |t| && t[i].Full?
    ensures t[i].key in MapOf(t) && MapOf(t)[t[i].key] == t[i].value
  {
    var n := |t| - 1;
    if i < n { MapOfStores(t[..n], i); }
  }

  lemma MapOfDistinct<V>(t: Table<V>)
    requires Distinct(t)
    ensures |MapOf(t)| == FullCount(t) && Stores(t, MapOf(t))
  {
    hide MapOf, Distinct, FullCount;
    MapOfSize(t);
    forall k | k in MapOf(t) ensures exists i :: HasKey(t, i, k) { MapOfKeys(t, k); }
    forall i | 0 <= i < |t| && t[i].Full? ensures t[i].key in MapOf(t) && MapOf(t)[t[i].key] == t[i].value {
      MapOfStores(t, i);
    }
  }

  lemma StoresUnique<V>(t: Table<V>, h: Hash, m: map<Bytes, V>)
    requires WellFormed(t, h) && Stores(t, m)
    ensures m == MapOf(t) && |m| == FullCount(t)
  {
    MapOfDistinct(t);
    forall k ensures k in m <==> k in MapOf(t) {
      MapOfKeys(t, k);
      if i :| HasKey(t, i, k) { assert k in m; }
    }
    forall k | k in m ensures m[k] == MapOf(t)[k] {
      var i :| HasKey(t, i, k);
    }
  }

  function EmptyTable<V>(n: nat): Table<V> { seq(n, _ => Empty) }

  lemma {:induction false} EmptyTableIsEmpty<V>(n: nat, h: Hash)
    ensures FullCount(EmptyTable<V>(n)) == TombCount(EmptyTable<V>(n)) == 0
    ensures n > 0 ==> WellFormed(EmptyTable<V>(n), h) && Stores(EmptyTable<V>(n), map[])
  {
    if n > 0 {
      EmptyTableIsEmpty<V>(n - 1, h);
      assert EmptyTable<V>(n)[..n - 1] == EmptyTable<V>(n - 1);
    }
  }
}
