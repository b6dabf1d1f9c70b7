/** The Robin Hood hash table every cache and index of lfm is built on
    (third-party/STC/include/stc/hmap.h).

    The first module holds the arithmetic of the bucket ring and the layout invariants, stated on
    sequences of buckets; the second holds the table itself, updated in place. */
module BucketRing {

  /** Bucket bookkeeping: `dist` is 0 for an empty bucket, otherwise 1 + distance from home. */
  datatype Meta = Meta(hashx: nat, dist: nat)

  datatype Entry<K, V> = Entry(first: K, second: V)

  /** `(i + 1) & mask` for a table of `n` buckets. */
  function Next(i: nat, n: nat): (j: nat)
    requires i < n
  {
    if i + 1 == n then 0 else i + 1
  }

  /** The number of steps from bucket `a` forward to bucket `b`. */
  function Offset(a: nat, b: nat, n: nat): (d: nat)
    requires a < n && b < n
  {
    if a <= b then b - a else b + n - a
  }

  /** `hash & mask`; the bucket count is always a power of two. */
  function Home(hash: nat, n: nat): (i: nat)
    requires n > 0
    ensures i < n
  {
    hash % n
  }

  /** The six hash bits kept in the bucket. */
  function HashX(hash: nat): nat {
    (hash / 0x100_0000) % 64
  }

  /** From one bucket to the next, `dist` grows by at most one. */
  ghost predicate RobinHood(meta: seq<Meta>, n: nat)
    requires n <= |meta|
  {
    forall i :: 0 <= i < n ==> meta[Next(i, n)].dist <= meta[i].dist + 1
  }

  /** Bucket `i` holds an entry with hash `h` at the probe distance its `dist` field records. */
  ghost predicate PlacedAt(m: Meta, h: nat, i: nat, n: nat)
    requires i < n
  {
    m.dist == Offset(Home(h, n), i, n) + 1 && m.hashx == HashX(h)
  }

  ghost predicate Placed<K, V>(hash: K -> nat, meta: seq<Meta>, table: seq<Entry<K, V>>, n: nat, hole: int)
    requires n <= |meta| && n <= |table|
  {
    forall i :: 0 <= i < n && i != hole && meta[i].dist > 0 ==> PlacedAt(meta[i], hash(table[i].first), i, n)
  }

  /** The occupied buckets other than `hole` hold exactly the entries of `c`, each once;
      `pos` says where. */
  ghost predicate Indexed<K, V>(meta: seq<Meta>, table: seq<Entry<K, V>>, n: nat, hole: int,
                                c: map<K, V>, pos: map<K, nat>)
    requires n <= |meta| && n <= |table|
  {
    && pos.Keys == c.Keys
    && (forall k :: k in pos ==>
      pos[k] < n && pos[k] != hole && meta[pos[k]].dist > 0 && table[pos[k]] == Entry(k, c[k]))
    && (forall i :: 0 <= i < n && i != hole && meta[i].dist > 0 ==> table[i].first in pos && pos[table[i].first] == i)
  }

  // ---------------------------------------------------------------- the probe-distance invariant

  /** Walking forward from `a` to `b`, the probe distance climbs by at most one per step.
      Everything else about probing follows from this. */
  lemma {:induction false} Climb(meta: seq<Meta>, n: nat, a: nat, b: nat)
    requires n <= |meta| && RobinHood(meta, n) && a < n && b < n
    ensures meta[b].dist <= meta[a].dist + Offset(a, b, n)
    decreases Offset(a, b, n)
  {
    if a != b {
      var prev := if b == 0 then n - 1 else b - 1;
      Climb(meta, n, a, prev);
      assert Next(prev, n) == b;
    }
  }

  /** Every bucket between the home of a stored key and the key itself is occupied by an entry at
      least as far from home as the probe has come: a lookup that stops at the first smaller `dist`
      has not missed it. */
  lemma EarlyStopIsSound(meta: seq<Meta>, n: nat, home: nat, at: nat, probe: nat)
    requires n <= |meta| && RobinHood(meta, n) && home < n && at < n && probe < n
    requires meta[at].dist == Offset(home, at, n) + 1
    requires Offset(home, probe, n) <= Offset(home, at, n)
    ensures meta[probe].dist >= Offset(home, probe, n) + 1
  {
    Climb(meta, n, probe, at);
  }

  /** A table with fewer entries than buckets has an empty bucket. */
  lemma EmptyBucket<K, V>(meta: seq<Meta>, table: seq<Entry<K, V>>, n: nat, c: map<K, V>, pos: map<K, nat>)
    returns (e: nat)
    requires n <= |meta| && n <= |table|
    requires Indexed(meta, table, n, -1, c, pos) && |c| < n
    ensures e < n && meta[e].dist == 0
  {
    assert |c.Keys| == |c|;
    if forall i :: 0 <= i < n ==> meta[i].dist > 0 {
      ghost var keys := seq(n, i requires 0 <= i < n => table[i].first);
      assert forall i :: 0 <= i < n ==> keys[i] in c && pos[keys[i]] == i;
      DistinctKeysBound(keys, c.Keys);
      assert false;
    }
    e :| 0 <= e < n && meta[e].dist == 0;
  }

  lemma {:induction false} DistinctKeysBound<K>(keys: seq<K>, s: set<K>)
    requires forall i, j :: 0 <= i < j < |keys| ==> keys[i] != keys[j]
    requires forall i :: 0 <= i < |keys| ==> keys[i] in s
    ensures |keys| <= |s|
  {
    if |keys| > 0 {
      DistinctKeysBound(keys[1..], s - {keys[0]});
    }
  }

  // ---------------------------------------------------------------- probing

  /** A lookup of `key` has reached bucket `idx` without having met the key or the empty bucket `e`. */
  ghost predicate Probing<K, V>(meta: seq<Meta>, n: nat, hash: K -> nat, c: map<K, V>, pos: map<K, nat>,
                                key: K, e: nat, idx: nat, dist: nat)
    requires n <= |meta|
  {
    && idx < n && e < n && meta[e].dist == 0 && pos.Keys == c.Keys
    && dist == Offset(Home(hash(key), n), idx, n) + 1
    && dist <= Offset(Home(hash(key), n), e, n) + 1
    && (dist > 1 ==> forall prev :: 0 <= prev < n && Next(prev, n) == idx ==> dist <= meta[prev].dist + 1)
    && (key in c ==> pos[key] < n && dist <= Offset(Home(hash(key), n), pos[key], n) + 1)
  }

  lemma ProbeOn<K, V>(meta: seq<Meta>, n: nat, hash: K -> nat, c: map<K, V>, pos: map<K, nat>,
                      key: K, e: nat, idx: nat, dist: nat)
    requires n <= |meta| && Probing(meta, n, hash, c, pos, key, e, idx, dist)
    requires dist <= meta[idx].dist && (key in c ==> pos[key] != idx)
    ensures Probing(meta, n, hash, c, pos, key, e, Next(idx, n), dist + 1) && dist < n
  {
  }

  /** The search may stop at the first bucket whose entry is closer to home than the probe. */
  lemma ProbeStops<K, V>(meta: seq<Meta>, table: seq<Entry<K, V>>, n: nat, hash: K -> nat, c: map<K, V>,
                         pos: map<K, nat>, key: K, e: nat, idx: nat, dist: nat)
    requires n <= |meta| && n <= |table| && Probing(meta, n, hash, c, pos, key, e, idx, dist)
    requires RobinHood(meta, n) && Placed(hash, meta, table, n, -1) && Indexed(meta, table, n, -1, c, pos)
    requires dist > meta[idx].dist
    ensures key !in c
  {
    if key in c {
      assert PlacedAt(meta[pos[key]], hash(key), pos[key], n);
      EarlyStopIsSound(meta, n, Home(hash(key), n), pos[key], idx);
    }
  }

  // ---------------------------------------------------------------- steps of the displacing insert

  /** Taking the occupant of bucket `p` out of the index and marking `p` as the hole. */
  lemma LiftOut<K, V>(meta: seq<Meta>, table: seq<Entry<K, V>>, n: nat, p: nat, m: Meta, c: map<K, V>, pos: map<K, nat>)
    requires n <= |meta| && n <= |table| && p < n
    requires Indexed(meta, table, n, -1, c, pos)
    ensures meta[p].dist == 0 ==> Indexed(meta[p := m], table, n, p, c, pos)
    ensures meta[p].dist > 0 ==>
      && table[p].first in c && c[table[p].first] == table[p].second
      && Indexed(meta[p := m], table, n, p, c - {table[p].first}, pos - {table[p].first})
  {
  }

  /** Putting a carried entry into bucket `j`, whose occupant (if any) is then carried on. */
  lemma PutDown<K, V>(meta: seq<Meta>, table: seq<Entry<K, V>>, n: nat, hole: nat, j: nat, m: Meta, e: Entry<K, V>,
                      c: map<K, V>, pos: map<K, nat>)
    requires n <= |meta| && n <= |table| && j < n && j != hole && m.dist > 0
    requires Indexed(meta, table, n, hole, c, pos) && e.first !in c
    ensures meta[j].dist == 0 ==>
      Indexed(meta[j := m], table[j := e], n, hole, c[e.first := e.second], pos[e.first := j])
    ensures meta[j].dist > 0 ==>
      && table[j].first in c && c[table[j].first] == table[j].second
      && Indexed(meta[j := m], table[j := e], n, hole,
                 (c - {table[j].first})[e.first := e.second], (pos - {table[j].first})[e.first := j])
  {
  }

  /** Filling the hole completes the index. */
  lemma FillHole<K, V>(meta: seq<Meta>, table: seq<Entry<K, V>>, n: nat, hole: nat, e: Entry<K, V>,
                       c: map<K, V>, pos: map<K, nat>)
    requires n <= |meta| && n <= |table| && hole < n && meta[hole].dist > 0
    requires Indexed(meta, table, n, hole, c, pos) && e.first !in c
    ensures Indexed(meta, table[hole := e], n, -1, c[e.first := e.second], pos[e.first := hole])
  {
  }

  /** Raising a bucket's `dist`, by no more than the left neighbour allows, keeps Robin Hood order. */
  lemma RaiseKeepsOrder(meta: seq<Meta>, n: nat, prev: nat, j: nat, m: Meta)
    requires n <= |meta| && RobinHood(meta, n) && prev < n && j == Next(prev, n)
    requires meta[j].dist <= m.dist <= meta[prev].dist + 1
    ensures RobinHood(meta[j := m], n)
  {
  }

  /** The displacing loop carries an entry `dcur` past bucket `idx`: it would fit there at `scur.dist`,
      but the bucket's own entry is at least as far from home. Bucket `p` awaits the inserted entry,
      `e` is an empty bucket ahead, and the other entries of `c` are all in place. */
  ghost predicate Carrying<K, V>(hash: K -> nat, meta: seq<Meta>, table: seq<Entry<K, V>>, n: nat, p: nat, e: nat,
                                 idx: nat, scur: Meta, dcur: Entry<K, V>, c: map<K, V>, pos: map<K, nat>)
    requires n <= |meta| && n <= |table|
  {
    && RobinHood(meta, n) && Placed(hash, meta, table, n, p)
    && dcur.first in c && c[dcur.first] == dcur.second
    && Indexed(meta, table, n, p, c - {dcur.first}, pos)
    && p < n && idx < n && e < n && p != e && meta[e].dist == 0 && meta[p].dist > 0
    && Offset(p, idx, n) < Offset(p, e, n)
    && PlacedAt(scur, hash(dcur.first), idx, n) && scur.dist <= meta[idx].dist
  }

  /** The carried entry's next bucket does not wrap past its home, and is not the awaiting bucket. */
  lemma CarryNext<K, V>(hash: K -> nat, meta: seq<Meta>, table: seq<Entry<K, V>>, n: nat, p: nat, e: nat,
                        idx: nat, scur: Meta, dcur: Entry<K, V>, c: map<K, V>, pos: map<K, nat>)
    requires n <= |meta| && n <= |table|
    requires Carrying(hash, meta, table, n, p, e, idx, scur, dcur, c, pos)
    ensures PlacedAt(Meta(scur.hashx, scur.dist + 1), hash(dcur.first), Next(idx, n), n)
    ensures Next(idx, n) != p && Offset(p, Next(idx, n), n) == Offset(p, idx, n) + 1
    ensures meta[Next(idx, n)].dist <= meta[idx].dist + 1
  {
    Climb(meta, n, e, idx);
  }

  lemma CarrySwap<K, V>(hash: K -> nat, meta: seq<Meta>, table: seq<Entry<K, V>>, n: nat, p: nat, e: nat,
                        idx: nat, scur: Meta, dcur: Entry<K, V>, c: map<K, V>, pos: map<K, nat>)
    requires n <= |meta| && n <= |table|
    requires Carrying(hash, meta, table, n, p, e, idx, scur, dcur, c, pos)
    requires 0 < meta[Next(idx, n)].dist < scur.dist + 1
    ensures var j := Next(idx, n); var k := table[j].first;
      && k in pos
      && Carrying(hash, meta[j := Meta(scur.hashx, scur.dist + 1)], table[j := dcur], n, p, e,
                  j, meta[j], table[j], c, (pos - {k})[dcur.first := j])
  {
    var j, m := Next(idx, n), Meta(scur.hashx, scur.dist + 1);
    CarryNext(hash, meta, table, n, p, e, idx, scur, dcur, c, pos);
    RaiseKeepsOrder(meta, n, idx, j, m);
    PutDown(meta, table, n, p, j, m, dcur, c - {dcur.first}, pos);
    assert (c - {dcur.first} - {table[j].first})[dcur.first := dcur.second] == c - {table[j].first};
  }

  lemma CarryEnds<K, V>(hash: K -> nat, meta: seq<Meta>, table: seq<Entry<K, V>>, n: nat, p: nat, e: nat,
                        idx: nat, scur: Meta, dcur: Entry<K, V>, c: map<K, V>, pos: map<K, nat>)
    requires n <= |meta| && n <= |table|
    requires Carrying(hash, meta, table, n, p, e, idx, scur, dcur, c, pos)
    requires meta[Next(idx, n)].dist == 0
    ensures var j := Next(idx, n);
      var meta', table' := meta[j := Meta(scur.hashx, scur.dist + 1)], table[j := dcur];
      && RobinHood(meta', n) && Placed(hash, meta', table', n, p) && j != p
      && Indexed(meta', table', n, p, c, pos[dcur.first := j])
  {
    var j, m := Next(idx, n), Meta(scur.hashx, scur.dist + 1);
    CarryNext(hash, meta, table, n, p, e, idx, scur, dcur, c, pos);
    RaiseKeepsOrder(meta, n, idx, j, m);
    PutDown(meta, table, n, p, j, m, dcur, c - {dcur.first}, pos);
    assert (c - {dcur.first})[dcur.first := dcur.second] == c;
  }

  /** The inserted entry's metadata takes over bucket `p`, where the lookup stopped. */
  lemma InsertMeta<K, V>(hash: K -> nat, meta: seq<Meta>, table: seq<Entry<K, V>>, n: nat, c: map<K, V>,
                         pos: map<K, nat>, key: K, e: nat, p: nat, dist: nat)
    requires n <= |meta| && n <= |table| && Probing(meta, n, hash, c, pos, key, e, p, dist)
    requires RobinHood(meta, n) && Placed(hash, meta, table, n, -1) && Indexed(meta, table, n, -1, c, pos)
    requires meta[p].dist < dist
    ensures var meta' := meta[p := Meta(HashX(hash(key)), dist)];
      && RobinHood(meta', n) && Placed(hash, meta', table, n, p)
      && PlacedAt(meta'[p], hash(key), p, n)
      && (meta[p].dist == 0 ==> Indexed(meta', table, n, p, c, pos))
      && (meta[p].dist > 0 ==> Carrying(hash, meta', table, n, p, e, p, meta[p], table[p], c, pos - {table[p].first}))
  {
    var m := Meta(HashX(hash(key)), dist);
    var prev := if p == 0 then n - 1 else p - 1;
    assert Next(prev, n) == p;
    RaiseKeepsOrder(meta, n, prev, p, m);
    LiftOut(meta, table, n, p, m, c, pos);
    assert meta[p].dist > 0 ==> PlacedAt(meta[p], hash(table[p].first), p, n);
  }

  /** Replacing the value of a stored key. */
  lemma Reassign<K, V>(hash: K -> nat, meta: seq<Meta>, table: seq<Entry<K, V>>, n: nat, p: nat, v: V,
                       c: map<K, V>, pos: map<K, nat>)
    requires n <= |meta| && n <= |table| && p < n && meta[p].dist > 0
    requires Placed(hash, meta, table, n, -1) && Indexed(meta, table, n, -1, c, pos)
    ensures var table' := table[p := Entry(table[p].first, v)];
      Placed(hash, meta, table', n, -1) && Indexed(meta, table', n, -1, c[table[p].first := v], pos)
  {
  }

  // ---------------------------------------------------------------- steps of the backward shift

  /** Erasing starts by making the erased entry's bucket the hole. */
  lemma OpenHole<K, V>(hash: K -> nat, meta: seq<Meta>, table: seq<Entry<K, V>>, n: nat, p: nat,
                       c: map<K, V>, pos: map<K, nat>)
    requires n <= |meta| && n <= |table| && p < n && meta[p].dist > 0
    requires Placed(hash, meta, table, n, -1) && Indexed(meta, table, n, -1, c, pos)
    ensures table[p].first in c && Placed(hash, meta, table, n, p)
    ensures Indexed(meta, table, n, p, c - {table[p].first}, pos - {table[p].first})
  {
    LiftOut(meta, table, n, p, meta[p], c, pos);
    assert meta[p := meta[p]] == meta;
  }

  /** Moving the entry of the bucket after the hole back into the hole. */
  lemma ShiftBack<K, V>(hash: K -> nat, meta: seq<Meta>, table: seq<Entry<K, V>>, n: nat, i: nat, j: nat,
                        c: map<K, V>, pos: map<K, nat>)
    requires n <= |meta| && n <= |table| && i < n && j == Next(i, n) && i != j && meta[j].dist >= 2
    requires RobinHood(meta, n) && Placed(hash, meta, table, n, i) && Indexed(meta, table, n, i, c, pos)
    ensures
      var meta' := meta[i := Meta(meta[j].hashx, meta[j].dist - 1)];
      var table' := table[i := table[j]];
      && RobinHood(meta', n) && Placed(hash, meta', table', n, j)
      && table[j].first in pos && Indexed(meta', table', n, j, c, pos[table[j].first := i])
  {
    ghost var meta' := meta[i := Meta(meta[j].hashx, meta[j].dist - 1)];
    assert PlacedAt(meta[j], hash(table[j].first), j, n);
    assert PlacedAt(meta'[i], hash(table[j].first), i, n);
    forall x | 0 <= x < n
      ensures meta'[Next(x, n)].dist <= meta'[x].dist + 1
    {
      assert meta[Next(x, n)].dist <= meta[x].dist + 1;
    }
  }

  /** Emptying the hole once the next bucket is empty or at its home. */
  lemma CloseHole<K, V>(hash: K -> nat, meta: seq<Meta>, table: seq<Entry<K, V>>, n: nat, i: nat, m: Meta,
                        c: map<K, V>, pos: map<K, nat>)
    requires n <= |meta| && n <= |table| && i < n && meta[Next(i, n)].dist < 2 && m.dist == 0
    requires RobinHood(meta, n) && Placed(hash, meta, table, n, i) && Indexed(meta, table, n, i, c, pos)
    ensures RobinHood(meta[i := m], n) && Placed(hash, meta[i := m], table, n, -1)
    ensures Indexed(meta[i := m], table, n, -1, c, pos)
  {
    forall x | 0 <= x < n
      ensures meta[i := m][Next(x, n)].dist <= meta[i := m][x].dist + 1
    {
      assert meta[Next(x, n)].dist <= meta[x].dist + 1;
    }
  }

  /** A table of empty buckets stands for the empty map. */
  lemma AllEmpty<K, V>(hash: K -> nat, meta: seq<Meta>, table: seq<Entry<K, V>>, n: nat)
    requires n <= |meta| && n <= |table| && forall i :: 0 <= i < n ==> meta[i].dist == 0
    ensures RobinHood(meta, n) && Placed(hash, meta, table, n, -1) && Indexed(meta, table, n, -1, map[], map[])
  {
  }

  // ---------------------------------------------------------------- rehashing

  /** The part of `c` stored in the first `i` buckets. */
  ghost function Restrict<K, V>(c: map<K, V>, pos: map<K, nat>, i: nat): map<K, V>
    requires pos.Keys == c.Keys
  {
    map k | k in c && pos[k] < i :: c[k]
  }

  lemma RestrictEnds<K, V>(meta: seq<Meta>, table: seq<Entry<K, V>>, n: nat, c: map<K, V>, pos: map<K, nat>)
    requires n <= |meta| && n <= |table| && Indexed(meta, table, n, -1, c, pos)
    ensures pos.Keys == c.Keys && Restrict(c, pos, 0) == map[] && Restrict(c, pos, n) == c
  {
  }

  lemma RestrictStep<K, V>(meta: seq<Meta>, table: seq<Entry<K, V>>, n: nat, c: map<K, V>, pos: map<K, nat>, i: nat)
    requires n <= |meta| && n <= |table| && i < n && Indexed(meta, table, n, -1, c, pos)
    ensures pos.Keys == c.Keys
    ensures meta[i].dist == 0 ==> Restrict(c, pos, i + 1) == Restrict(c, pos, i)
    ensures meta[i].dist > 0 ==>
      && table[i].first !in Restrict(c, pos, i)
      && Restrict(c, pos, i + 1) == Restrict(c, pos, i)[table[i].first := table[i].second]
      && |Restrict(c, pos, i)| < |c|
  {
    if meta[i].dist > 0 {
      var k := table[i].first;
      assert k in c && pos[k] == i;
      SubsetSize(Restrict(c, pos, i).Keys, c.Keys);
      assert |c.Keys| == |c| && |Restrict(c, pos, i).Keys| == |Restrict(c, pos, i)|;
    }
  }

  lemma {:induction false} SubsetSize<K>(a: set<K>, b: set<K>)
    requires a < b
    ensures |a| < |b|
  {
    if a != {} {
      var x :| x in a;
      SubsetSize(a - {x}, b - {x});
    }
  }

  // ---------------------------------------------------------------- iteration

  /** `out` lists, once each, the entries stored before bucket `at`. */
  ghost predicate Listed<K, V>(out: seq<Entry<K, V>>, c: map<K, V>, pos: map<K, nat>, at: nat)
    requires pos.Keys == c.Keys
  {
    && (forall i :: 0 <= i < |out| ==> out[i].first in c && c[out[i].first] == out[i].second && pos[out[i].first] < at)
    && (forall i, j :: 0 <= i < j < |out| ==> out[i].first != out[j].first)
    && (forall k :: k in c && pos[k] < at ==> Entry(k, c[k]) in out)
  }

  lemma ListedNone<K, V>(meta: seq<Meta>, table: seq<Entry<K, V>>, n: nat, c: map<K, V>, pos: map<K, nat>, at: nat)
    requires n <= |meta| && n <= |table| && Indexed(meta, table, n, -1, c, pos)
    requires at <= n && forall i :: 0 <= i < at ==> meta[i].dist == 0
    ensures Listed([], c, pos, at)
  {
  }

  lemma ListedStep<K, V>(meta: seq<Meta>, table: seq<Entry<K, V>>, n: nat, c: map<K, V>, pos: map<K, nat>,
                         out: seq<Entry<K, V>>, at: nat, next: nat)
    requires n <= |meta| && n <= |table| && Indexed(meta, table, n, -1, c, pos) && Listed(out, c, pos, at)
    requires at < next <= n && meta[at].dist > 0 && forall i :: at < i < next ==> meta[i].dist == 0
    ensures Listed(out + [table[at]], c, pos, next)
  {
    var k := table[at].first;
    assert k in pos && pos[k] == at;
    assert (out + [table[at]])[|out|] == table[at];
    forall x | x in c && pos[x] < next
      ensures Entry(x, c[x]) in out + [table[at]]
    {
      if pos[x] >= at {
        assert pos[x] == at;
      }
    }
  }

  lemma {:induction false} DistinctEntriesCount<K, V>(out: seq<Entry<K, V>>, c: map<K, V>)
    requires forall i, j :: 0 <= i < j < |out| ==> out[i].first != out[j].first
    requires forall i :: 0 <= i < |out| ==> out[i].first in c && c[out[i].first] == out[i].second
    requires forall k :: k in c ==> Entry(k, c[k]) in out
    ensures |out| == |c|
  {
    if |out| > 0 {
      ghost var c' := c - {out[0].first};
      assert c == c'[out[0].first := out[0].second];
      forall k | k in c'
        ensures Entry(k, c'[k]) in out[1..]
      {
        assert Entry(k, c[k]) in out;
      }
      DistinctEntriesCount(out[1..], c');
    }
  }

  // ---------------------------------------------------------------- sizes

  ghost predicate IsPow2(n: nat) {
    n == 1 || (n > 1 && n % 2 == 0 && IsPow2(n / 2))
  }

  /** `c_next_pow2`: the smallest power of two that is at least `n`. */
  function NextPow2(n: nat): (p: nat)
    requires n > 0
    ensures IsPow2(p) && n <= p < 2 * n
  {
    if n == 1 then 1 else 2 * NextPow2((n + 1) / 2)
  }

  /** `(isize)((float)newcap / 0.80f) + 4`, rounded up to a power of two. */
  function BucketsFor(newcap: nat): (n: nat) {
    NextPow2(newcap * 5 / 4 + 4)
  }

  /** `(isize)((float)bucket_count * 0.80f)`. */
  function LoadLimit(n: nat): nat {
    n * 4 / 5
  }

  /** The growth request of an insertion at the load limit always gets a strictly larger table, and
      either way an insertion leaves an empty bucket. */
  /** `n` is the least power of two that holds `cap` entries at four fifths of its buckets, and four more. */
  ghost predicate IsRoomFor(n: nat, cap: nat) {
    IsPow2(n) && cap * 5 / 4 + 4 <= n < 2 * (cap * 5 / 4 + 4)
  }

  lemma RoomFor(cap: nat)
    ensures IsRoomFor(BucketsFor(cap), cap)
  {
  }

  lemma GrowthLeavesRoom(size: nat, n: nat)
    requires size < n || n == 0
    ensures size >= LoadLimit(n) ==> BucketsFor(size * 3 / 2 + 2) > n && BucketsFor(size * 3 / 2 + 2) > size + 1
    ensures size < LoadLimit(n) ==> size + 1 < n
  {
  }
}

module HashMap {
  import opened BucketRing

  /** An instance of the table for keys `K` and values `V`. Equality of keys is `i_eq`; `hash` is `i_hash`. */
  class HMap<K(==,0), V(0)> {
    const hash: K -> nat
    var table: array<Entry<K, V>>
    var meta: array<Meta>
    var size: nat
    var bucketCount: nat
    ghost var contents: map<K, V>  // the finite map this table stands for
    ghost var pos: map<K, nat>     // the bucket each key is stored in

    /** The shape of the two buffers; an array of length 0 stands for NULL. The extra bucket at the
        end of `meta` carries the end mark the iterator stops at. */
    ghost predicate Shape()
      reads this, meta
    {
      && table.Length == bucketCount
      && (bucketCount == 0 ==> meta.Length == 0)
      && (bucketCount > 0 ==>
        meta.Length == bucketCount + 1 && meta[bucketCount] == Meta(0, 0x3ff) && IsPow2(bucketCount))
    }

    /** Everything but the `size` field, with bucket `hole` awaiting its key and value. */
    ghost predicate TableExcept(hole: int)
      reads this, table, meta
    {
      && Shape()
      && RobinHood(meta[..], bucketCount)
      && Placed(hash, meta[..], table[..], bucketCount, hole)
      && Indexed(meta[..], table[..], bucketCount, hole, contents, pos)
    }

    ghost predicate Valid()
      reads this, table, meta
    {
      && TableExcept(-1)
      && size == |contents|
      && (bucketCount > 0 ==> size < bucketCount)
      && (bucketCount == 0 ==> size == 0)
    }

    constructor (hash: K -> nat)
      ensures Valid() && contents == map[] && this.hash == hash && bucketCount == 0
      ensures fresh(table) && fresh(meta)
    {
      this.hash := hash;
      table, meta := new Entry<K, V>[0], new Meta[0];
      size, bucketCount := 0, 0;
      contents, pos := map[], map[];
    }

    /** Buffers of a fresh, all-empty table (`_i_malloc` and `_i_calloc` in `_reserve`). */
    constructor WithBuckets(hash: K -> nat, buckets: nat, size: nat)
      requires buckets > 0 && IsPow2(buckets)
      ensures TableExcept(-1) && contents == map[] && this.hash == hash
      ensures this.size == size && bucketCount == buckets
      ensures fresh(table) && fresh(meta)
    {
      this.hash := hash;
      table := new Entry<K, V>[buckets];
      meta := new Meta[buckets + 1](i => if i == buckets then Meta(0, 0x3ff) else Meta(0, 0));
      this.size, bucketCount := size, buckets;
      contents, pos := map[], map[];
    }

    /** `_bucket_lookup_`: either the bucket of `key`, or the bucket where it has to be inserted. */
    method BucketLookup(key: K) returns (idx: nat, dist: nat, found: bool)
      requires TableExcept(-1) && bucketCount > 0 && |contents| < bucketCount
      ensures idx < bucketCount
      ensures found <==> key in contents
      ensures found ==> key in pos && pos[key] == idx && meta[idx].dist > 0 && table[idx] == Entry(key, contents[key])
      ensures !found ==>
        meta[idx].dist < dist && exists e :: Probing(meta[..], bucketCount, hash, contents, pos, key, e, idx, dist)
    {
      var n := bucketCount;
      idx, dist, found := Home(hash(key), n), 1, false;
      ghost var ms, ts := meta[..], table[..];
      ghost var e := EmptyBucket(ms, ts, n, contents, pos);
      while dist <= meta[idx].dist
        invariant Probing(ms, n, hash, contents, pos, key, e, idx, dist)
        decreases n - dist
      {
        if meta[idx].hashx == HashX(hash(key)) {
          if table[idx].first == key {
            found := true;
            return;
          }
        }
        assert key in contents ==> pos[key] != idx by {
          assert PlacedAt(ms[idx], hash(ts[idx].first), idx, n);
        }
        ProbeOn(ms, n, hash, contents, pos, key, e, idx, dist);
        idx := Next(idx, n);
        dist := dist + 1;
      }
      ProbeStops(ms, ts, n, hash, contents, pos, key, e, idx, dist);
      assert Probing(meta[..], n, hash, contents, pos, key, e, idx, dist);
    }

    /** Writes both halves of bucket `j`. */
    method SetBucket(j: nat, m: Meta, e: Entry<K, V>)
      requires Shape() && j < bucketCount
      modifies table, meta
      ensures Shape() && meta[..] == old(meta[..])[j := m] && table[..] == old(table[..])[j := e]
    {
      meta[j], table[j] := m, e;
    }

    /** `_bucket_insert_`: makes room for `key`. The returned bucket's `table` slot still holds whatever
        was there before; the caller has to fill it. */
    method BucketInsert(key: K) returns (p: nat, inserted: bool)
      requires TableExcept(-1) && bucketCount > 0 && |contents| < bucketCount
      modifies table, meta, this`pos
      ensures p < bucketCount && (inserted <==> key !in contents)
      ensures !inserted ==>
        TableExcept(-1) && pos == old(pos) && key in pos && pos[key] == p && meta[p].dist > 0 &&
        table[p] == Entry(key, contents[key])
      ensures inserted ==> TableExcept(p) && PlacedAt(meta[p], hash(key), p, bucketCount)
    {
      hide RobinHood, Placed, Indexed, Carrying, Probing;
      var n := bucketCount;
      var dist, found;
      p, dist, found := BucketLookup(key);
      if found {
        return p, false;
      }
      inserted := true;
      ghost var e :| Probing(meta[..], n, hash, contents, pos, key, e, p, dist);
      ghost var m0 := meta[..];
      var scur := meta[p];
      InsertMeta(hash, m0, table[..], n, contents, pos, key, e, p, dist);
      SetBucket(p, Meta(HashX(hash(key)), dist), table[p]);
      assert table[..] == old(table[..]);
      if scur.dist != 0 {
        var dcur := table[p];
        MakeRoom(p, scur, dcur, e);
      }
    }

    /** The `for (;;)` loop of `_bucket_insert_`: every displaced entry moves on until a bucket is empty. */
    method MakeRoom(p: nat, scur0: Meta, dcur0: Entry<K, V>, ghost e: nat)
      requires Shape() && bucketCount > 0
      requires Carrying(hash, meta[..], table[..], bucketCount, p, e, p, scur0, dcur0, contents, pos - {dcur0.first})
      modifies table, meta, this`pos
      ensures TableExcept(p) && meta[p] == old(meta[p])
    {
      hide RobinHood, Placed, Indexed;
      var n := bucketCount;
      var idx, scur, dcur := p, scur0, dcur0;
      ghost var ms, ts, q := meta[..], table[..], pos - {dcur0.first};
      while meta[Next(idx, n)].dist != 0
        invariant Shape() && n == bucketCount && ms == meta[..] && ts == table[..] && ms[p] == old(meta[p])
        invariant Carrying(hash, ms, ts, n, p, e, idx, scur, dcur, contents, q)
        decreases Offset(p, e, n) - Offset(p, idx, n)
      {
        CarryNext(hash, ms, ts, n, p, e, idx, scur, dcur, contents, q);
        var j := Next(idx, n);
        if meta[j].dist < scur.dist + 1 {
          CarrySwap(hash, ms, ts, n, p, e, idx, scur, dcur, contents, q);
          q := (q - {ts[j].first})[dcur.first := j];
          ms, ts := ms[j := Meta(scur.hashx, scur.dist + 1)], ts[j := dcur];
          var m, d := meta[j], table[j];
          SetBucket(j, Meta(scur.hashx, scur.dist + 1), dcur);
          scur, dcur := m, d;
        } else {
          scur := Meta(scur.hashx, scur.dist + 1);
        }
        idx := j;
      }
      CarryNext(hash, ms, ts, n, p, e, idx, scur, dcur, contents, q);
      CarryEnds(hash, ms, ts, n, p, e, idx, scur, dcur, contents, q);
      idx := Next(idx, n);
      SetBucket(idx, Meta(scur.hashx, scur.dist + 1), dcur);
      pos := q[dcur.first := idx];
    }

    /** Writes the entry the caller of `_bucket_insert_` fills the awaiting bucket with. */
    method Fill(p: nat, key: K, value: V)
      requires p < bucketCount && key !in contents
      requires TableExcept(p) && PlacedAt(meta[p], hash(key), p, bucketCount)
      modifies table, this`pos, this`contents
      ensures TableExcept(-1) && contents == old(contents)[key := value] && pos == old(pos)[key := p]
    {
      ghost var ts := table[..];
      table[p] := Entry(key, value);
      assert table[..] == ts[p := Entry(key, value)];
      FillHole(meta[..], ts, bucketCount, p, Entry(key, value), contents, pos);
      contents, pos := contents[key := value], pos[key := p];
    }

    /** `_reserve`: rehashes into a table of the size asked for, unless that is already the size or
        the request is below the number of entries. */
    method Reserve(newcap: nat)
      requires Valid()
      modifies this
      ensures Valid() && contents == old(contents)
      ensures bucketCount == if newcap < size then old(bucketCount) else BucketsFor(newcap)
      ensures (table == old(table) || fresh(table)) && (meta == old(meta) || fresh(meta))
    {
      hide RobinHood, Placed, Indexed;
      var newbucks := BucketsFor(newcap);
      if newcap < size || newbucks == bucketCount {
        return;
      }
      var map' := new HMap<K, V>.WithBuckets(hash, newbucks, size);
      map'.Rehash(this);
      table, meta, bucketCount := map'.table, map'.meta, map'.bucketCount;
      contents, pos := map'.contents, map'.pos;
    }

    /** The `// Rehash:` loop of `_reserve`, filling this fresh table from the buckets of `old'`. */
    method Rehash(old': HMap<K, V>)
      requires TableExcept(-1) && contents == map[] && hash == old'.hash
      requires old'.Valid() && old'.size < bucketCount
      requires old'.table != table && old'.meta != meta && old' != this
      modifies this`contents, this`pos, table, meta
      ensures TableExcept(-1) && contents == old'.contents
    {
      hide RobinHood, Placed, Indexed, Restrict;
      var i := 0;
      RestrictEnds(old'.meta[..], old'.table[..], old'.bucketCount, old'.contents, old'.pos);
      while i < old'.bucketCount
        invariant i <= old'.bucketCount && old'.Valid() && TableExcept(-1)
        invariant contents == Restrict(old'.contents, old'.pos, i)
      {
        RestrictStep(old'.meta[..], old'.table[..], old'.bucketCount, old'.contents, old'.pos, i);
        if old'.meta[i].dist != 0 {
          var key := old'.table[i].first;
          var p, inserted := BucketInsert(key);
          Fill(p, key, old'.table[i].second);
        }
        i := i + 1;
      }
    }

    /** `_insert_entry_` followed by `_insert`: an existing key keeps its value. */
    method Insert(key: K, value: V) returns (inserted: bool)
      requires Valid()
      modifies this, table, meta
      ensures Valid() && bucketCount > 0 && inserted == (key !in old(contents))
      ensures contents == if inserted then old(contents)[key := value] else old(contents)
      ensures (table == old(table) || fresh(table)) && (meta == old(meta) || fresh(meta))
    {
      hide RobinHood, Placed, Indexed;
      var p;
      p, inserted := InsertEntry(key);
      if inserted {
        Fill(p, key, value);
      }
    }

    /** `_insert_or_assign`. */
    method InsertOrAssign(key: K, value: V) returns (inserted: bool)
      requires Valid()
      modifies this, table, meta
      ensures Valid() && bucketCount > 0 && inserted == (key !in old(contents))
      ensures contents == old(contents)[key := value]
      ensures (table == old(table) || fresh(table)) && (meta == old(meta) || fresh(meta))
    {
      hide RobinHood, Placed, Indexed;
      var p;
      p, inserted := InsertEntry(key);
      if inserted {
        Fill(p, key, value);
      } else {
        ghost var ts := table[..];
        table[p] := Entry(table[p].first, value);
        assert table[..] == ts[p := Entry(key, value)];
        Reassign(hash, meta[..], ts, bucketCount, p, value, contents, pos);
        contents := contents[key := value];
      }
    }

    /** At four fifths of the buckets, and with none, the table grows. */
    method GrowAtLimit()
      requires Valid()
      modifies this
      ensures Valid() && contents == old(contents) && size == old(size) && size + 1 < bucketCount
      ensures 5 * (size + 1) <= 4 * old(bucketCount) ==> bucketCount == old(bucketCount)
      ensures 5 * (size + 1) > 4 * old(bucketCount) ==>
        bucketCount > old(bucketCount) && IsRoomFor(bucketCount, size * 3 / 2 + 2)
      ensures (table == old(table) || fresh(table)) && (meta == old(meta) || fresh(meta))
    {
      hide RobinHood, Placed, Indexed, IsRoomFor;
      GrowthLeavesRoom(size, bucketCount);
      RoomFor(size * 3 / 2 + 2);
      if size >= LoadLimit(bucketCount) {
        Reserve(size * 3 / 2 + 2);
      }
    }

    /** `_insert_entry_`: grows at the load limit, then finds the bucket. */
    method InsertEntry(key: K) returns (p: nat, inserted: bool)
      requires Valid()
      modifies this, table, meta
      ensures contents == old(contents) && inserted == (key !in contents)
      ensures p < bucketCount && size == |contents| + (if inserted then 1 else 0) && size < bucketCount
      ensures !inserted ==>
        TableExcept(-1) && key in pos && pos[key] == p && meta[p].dist > 0 && table[p] == Entry(key, contents[key])
      ensures inserted ==> TableExcept(p) && PlacedAt(meta[p], hash(key), p, bucketCount)
      ensures 5 * (old(size) + 1) <= 4 * old(bucketCount) ==> bucketCount == old(bucketCount)
      ensures 5 * (old(size) + 1) > 4 * old(bucketCount) ==>
        bucketCount > old(bucketCount) && IsRoomFor(bucketCount, old(size) * 3 / 2 + 2)
      ensures (table == old(table) || fresh(table)) && (meta == old(meta) || fresh(meta))
    {
      hide RobinHood, Placed, Indexed, IsRoomFor;
      GrowAtLimit();
      p, inserted := BucketInsert(key);
      if inserted {
        size := size + 1;
      }
    }

    /** `_get`: the value stored under `key`, if there is one. */
    method Get(key: K) returns (found: bool, value: V)
      requires Valid()
      ensures found <==> key in contents
      ensures found ==> value == contents[key]
    {
      value := *;
      found := false;
      if size != 0 {
        var idx, dist;
        idx, dist, found := BucketLookup(key);
        if found {
          value := table[idx].second;
        }
      }
    }

    /** `_erase_entry`: drops the entry of bucket `at`. */
    method EraseEntry(at: nat)
      requires Valid() && at < bucketCount && meta[at].dist > 0
      modifies this, table, meta
      ensures Valid() && contents == old(contents) - {old(table[at]).first}
      ensures bucketCount == old(bucketCount) && table == old(table) && meta == old(meta)
    {
      hide RobinHood, Placed, Indexed;
      ghost var e := EmptyBucket(meta[..], table[..], bucketCount, contents, pos);
      Forget(at);
      ShiftDown(at, e);
      size := size - 1;
    }

    /** The erased entry leaves the index; its bucket is now the hole. */
    ghost method Forget(at: nat)
      requires TableExcept(-1) && at < bucketCount && meta[at].dist > 0
      modifies this`contents, this`pos
      ensures TableExcept(at) && table[at].first in old(contents)
      ensures contents == old(contents) - {table[at].first} && |contents| == |old(contents)| - 1
    {
      hide RobinHood, Placed, Indexed;
      OpenHole(hash, meta[..], table[..], bucketCount, at, contents, pos);
      contents, pos := contents - {table[at].first}, pos - {table[at].first};
    }

    /** The `for (;;)` loop of `_erase_entry`: backward shift until the next bucket is empty or at its home. */
    method ShiftDown(at: nat, ghost e: nat)
      requires TableExcept(at) && at < bucketCount && e < bucketCount && e != at && meta[e].dist == 0
      modifies table, meta, this`pos
      ensures TableExcept(-1)
    {
      hide RobinHood, Placed, Indexed;
      var n, i, j := bucketCount, at, Next(at, bucketCount);
      ghost var ms, ts, q := meta[..], table[..], pos;
      while meta[j].dist >= 2
        invariant Shape() && ms == meta[..] && ts == table[..]
        invariant i < n && j == Next(i, n) && meta[e].dist == 0 && i != e
        invariant RobinHood(ms, n) && Placed(hash, ms, ts, n, i) && Indexed(ms, ts, n, i, contents, q)
        decreases Offset(i, e, n)
      {
        ShiftBack(hash, ms, ts, n, i, j, contents, q);
        q := q[ts[j].first := i];
        ms, ts := ms[i := Meta(ms[j].hashx, ms[j].dist - 1)], ts[i := ts[j]];
        SetBucket(i, Meta(meta[j].hashx, meta[j].dist - 1), table[j]);
        i, j := j, Next(j, n);
      }
      CloseHole(hash, ms, ts, n, i, Meta(meta[i].hashx, 0), contents, q);
      SetBucket(i, Meta(meta[i].hashx, 0), table[i]);
      assert table[..] == ts;
      pos := q;
    }

    /** `_erase`: 1 if the key was there. */
    method Erase(key: K) returns (erased: nat)
      requires Valid()
      modifies this, table, meta
      ensures Valid() && erased == (if key in old(contents) then 1 else 0) && contents == old(contents) - {key}
      ensures bucketCount == old(bucketCount) && table == old(table) && meta == old(meta)
    {
      hide RobinHood, Placed, Indexed;
      erased := 0;
      if size != 0 {
        var idx, dist, found := BucketLookup(key);
        if found {
          EraseEntry(idx);
          erased := 1;
        }
      }
    }

    /** `_clear`: empties every bucket but keeps the buffers. */
    method Clear()
      requires Valid()
      modifies this, meta
      ensures Valid() && contents == map[]
      ensures bucketCount == old(bucketCount) && table == old(table) && meta == old(meta)
    {
      hide RobinHood, Placed, Indexed;
      size := 0;
      contents, pos := map[], map[];
      forall i | 0 <= i < bucketCount {
        meta[i] := Meta(0, 0);
      }
      AllEmpty<K, V>(hash, meta[..], table[..], bucketCount);
    }

    /** `_begin` and `_next`: the first occupied bucket from `from` on. The scan has no bounds check of its
        own: the end mark after the last bucket stops it. */
    method Seek(from: nat) returns (at: nat)
      requires Valid() && from <= bucketCount && bucketCount > 0
      ensures from <= at <= bucketCount
      ensures at < bucketCount ==> meta[at].dist > 0
      ensures forall i :: from <= i < at ==> meta[i].dist == 0
    {
      at := from;
      while meta[at].dist == 0
        invariant from <= at <= bucketCount
        invariant forall i :: from <= i < at ==> meta[i].dist == 0
        decreases bucketCount - at
      {
        at := at + 1;
      }
    }

    /** A `c_foreach` loop over the table: every entry of the map, each exactly once. */
    method Entries() returns (out: seq<Entry<K, V>>)
      requires Valid()
      ensures |out| == |contents|
      ensures forall i, j :: 0 <= i < j < |out| ==> out[i].first != out[j].first
      ensures forall i :: 0 <= i < |out| ==> out[i].first in contents && contents[out[i].first] == out[i].second
      ensures forall k :: k in contents ==> Entry(k, contents[k]) in out
    {
      hide RobinHood, Placed;
      out := [];
      if bucketCount == 0 {
        return;
      }
      var at := Seek(0);
      ListedNone(meta[..], table[..], bucketCount, contents, pos, at);
      while at != bucketCount
        invariant at <= bucketCount && (at < bucketCount ==> meta[at].dist > 0)
        invariant pos.Keys == contents.Keys && Listed(out, contents, pos, at)
      {
        hide RobinHood, Placed, Indexed, Listed;
        var next := Seek(at + 1);
        ListedStep(meta[..], table[..], bucketCount, contents, pos, out, at, next);
        out := out + [table[at]];
        at := next;
      }
      DistinctEntriesCount(out, contents);
    }
  }
  // ---------------------------------------------------------------- whole runs

  datatype Request<K, V> = Insert(k: K, v: V) | Assign(k: K, v: V) | Erase(k: K) | Get(k: K) | Clear | Reserve(n: nat)
  datatype Reply<V> = Flag(b: bool) | Found(v: V) | Missing | Done

  /** What a finite map answers to one request. */
  function Serve<K, V>(m: map<K, V>, r: Request<K, V>): (map<K, V>, Reply<V>) {
    match r
    case Insert(k, v) => if k in m then (m, Flag(false)) else (m[k := v], Flag(true))
    case Assign(k, v) => (m[k := v], Flag(k !in m))
    case Erase(k) => (m - {k}, Flag(k in m))
    case Get(k) => (m, if k in m then Found(m[k]) else Missing)
    case Clear => (map[], Done)
    case Reserve(_) => (m, Done)
  }

  function ServeAll<K, V>(m: map<K, V>, rs: seq<Request<K, V>>): seq<Reply<V>>
    decreases |rs|
  {
    if rs == [] then [] else
      var (m', reply) := Serve(m, rs[0]);
      [reply] + ServeAll(m', rs[1..])
  }

  method ServeOne<K(==,0), V(0)>(h: HMap<K, V>, r: Request<K, V>) returns (reply: Reply<V>)
    requires h.Valid()
    modifies h, h.table, h.meta
    ensures h.Valid() && (h.contents, reply) == Serve(old(h.contents), r)
    ensures (h.table == old(h.table) || fresh(h.table)) && (h.meta == old(h.meta) || fresh(h.meta))
  {
    hide RobinHood, Placed, Indexed;
    reply := Done;
    match r {
      case Insert(k, v) => var b := h.Insert(k, v); reply := Flag(b);
      case Assign(k, v) => var b := h.InsertOrAssign(k, v); reply := Flag(b);
      case Erase(k) => var n := h.Erase(k); reply := Flag(n == 1);
      case Get(k) => var found, v := h.Get(k); reply := if found then Found(v) else Missing;
      case Clear => h.Clear();
      case Reserve(n) => h.Reserve(n);
    }
  }

  /** Whatever the hash function, any run of requests on a new table is answered as by a finite map. */
  method Replay<K(==,0), V(0)>(hash: K -> nat, rs: seq<Request<K, V>>) returns (replies: seq<Reply<V>>)
    ensures replies == ServeAll(map[], rs)
  {
    hide RobinHood, Placed, Indexed;
    var h := new HMap<K, V>(hash);
    replies := [];
    var i := 0;
    while i < |rs|
      invariant i <= |rs| && h.Valid() && fresh(h) && fresh(h.table) && fresh(h.meta)
      invariant replies + ServeAll(h.contents, rs[i..]) == ServeAll(map[], rs)
    {
      var reply := ServeOne(h, rs[i]);
      assert rs[i..][1..] == rs[i + 1..];
      replies := replies + [reply];
      i := i + 1;
    }
  }
}
