/**
 Node addresses, and the partition of a free list's slots into free, held and
 lost ones. Everything here is about values; the class that keeps it is in
 FreeList.dfy.
 */
module Nodes {
  import opened Memory

  /** The `i`-th node of a row that starts at `p`. */
  function At(p: nat, i: nat, ns: nat): nat {
    if i == 0 then p else At(p, i - 1, ns) + ns
  }

  lemma {:induction false} AtMul(p: nat, i: nat, ns: nat)
    ensures At(p, i, ns) == p + i * ns
  {
    if i > 0 {
      AtMul(p, i - 1, ns);
      assert i * ns == (i - 1) * ns + ns;
    }
  }

  lemma {:induction false} AtOrder(p: nat, i: nat, j: nat, ns: nat)
    requires i < j
    ensures At(p, i, ns) + ns <= At(p, j, ns)
  {
    if i < j - 1 {
      AtOrder(p, i, j - 1, ns);
    }
  }

  /** `k` nodes in address order, as `insert_impl` chains them. */
  function RowOf(p: nat, k: nat, ns: nat): (s: seq<nat>)
    ensures |s| == k && forall i :: 0 <= i < k ==> s[i] == At(p, i, ns)
  {
    seq(k, i requires 0 <= i => At(p, i, ns))
  }

  ghost function RowSet(p: nat, k: nat, ns: nat): set<nat> {
    set s | s in RowOf(p, k, ns)
  }

  ghost predicate InRow(s: nat, p: nat, k: nat, ns: nat) {
    exists i :: 0 <= i < k && s == At(p, i, ns)
  }

  /** The list holds `k` address-adjacent nodes from position `at` on. */
  ghost predicate RowAt(free: seq<nat>, at: nat, k: nat, ns: nat) {
    at + k <= |free| && forall j :: 0 <= j < k ==> free[at + j] == At(free[at], j, ns)
  }

  /** The list without the `k` nodes at `at`. */
  ghost function Without(free: seq<nat>, at: nat, k: nat): (r: seq<nat>)
    requires at + k <= |free|
    ensures |r| == |free| - k
  {
    free[..at] + free[at + k..]
  }

  // ---- Who owns a slot ----

  /** A slot waits in the list, belongs to an allocation, or fell out of both. */
  datatype Own = Free | Held(base: nat) | Lost

  ghost predicate NoDup(s: seq<nat>) {
    forall i, j :: 0 <= i < j < |s| ==> s[i] != s[j]
  }

  /** Slots are aligned, never null, and do not overlap. */
  ghost predicate Spaced(owner: map<nat, Own>, ns: nat) {
    && (forall s :: s in owner ==> s != 0 && s % WORD == 0)
    && (forall s, t :: s in owner && t in owner && s < t ==> s + ns <= t)
  }

  ghost predicate FreeOwned(free: seq<nat>, owner: map<nat, Own>) {
    && NoDup(free)
    && (forall i :: 0 <= i < |free| ==> free[i] in owner && owner[free[i]] == Free)
    && (forall s :: s in owner && owner[s] == Free ==> s in free)
  }

  ghost predicate HeldOwned(held: map<nat, nat>, owner: map<nat, Own>, ns: nat) {
    && (forall p :: p in held ==> held[p] > 0)
    && (forall p, i :: p in held && 0 <= i < held[p] ==> At(p, i, ns) in owner && owner[At(p, i, ns)] == Held(p))
    && (forall s :: s in owner && owner[s].Held? ==>
          owner[s].base in held && InRow(s, owner[s].base, held[owner[s].base], ns))
  }

  /** Free nodes and allocations tile the slots that are not lost, and nothing overlaps. */
  ghost predicate Partition(free: seq<nat>, held: map<nat, nat>, owner: map<nat, Own>, ns: nat) {
    ns > 0 && Spaced(owner, ns) && FreeOwned(free, owner) && HeldOwned(held, owner, ns)
  }

  /** `owner` with the first `j` of `k` nodes of a row given to `a`, the others to `b`. */
  ghost function Assign(owner: map<nat, Own>, p: nat, j: nat, k: nat, ns: nat, a: Own, b: Own): map<nat, Own> {
    map s | s in owner :: if InRow(s, p, j, ns) then a else if InRow(s, p, k, ns) then b else owner[s]
  }

  ghost function Insert(owner: map<nat, Own>, p: nat, k: nat, ns: nat): map<nat, Own> {
    owner + map s | s in RowSet(p, k, ns) :: Free
  }

  /** What the list and the allocations know of their nodes. */
  lemma Facts(free: seq<nat>, held: map<nat, nat>, owner: map<nat, Own>, ns: nat)
    requires Partition(free, held, owner, ns)
    ensures NoDup(free)
    ensures forall i :: 0 <= i < |free| ==> free[i] in owner && free[i] != 0
    ensures forall p :: p in held ==> p in owner && p != 0 && p % WORD == 0 && held[p] > 0
    ensures forall p, i :: p in held && 0 <= i < held[p] ==> At(p, i, ns) in owner && At(p, i, ns) !in free
  {
    forall p | p in held
      ensures p in owner
    {
      assert At(p, 0, ns) == p;
    }
  }

  /** The nodes of an allocation are slots and not free. */
  lemma HeldRow(free: seq<nat>, held: map<nat, nat>, owner: map<nat, Own>, ns: nat, p: nat, j: nat)
    requires Partition(free, held, owner, ns) && p in held && j <= held[p]
    ensures forall s :: s in RowSet(p, j, ns) ==> s !in free && s in owner
  {
    Facts(free, held, owner, ns);
  }

  lemma AssignKeys(owner: map<nat, Own>, p: nat, j: nat, k: nat, ns: nat, a: Own, b: Own)
    ensures Assign(owner, p, j, k, ns, a, b).Keys == owner.Keys
    ensures |Assign(owner, p, j, k, ns, a, b)| == |owner|
  {
    assert Assign(owner, p, j, k, ns, a, b).Keys == owner.Keys;
  }

  lemma InsertKeys(owner: map<nat, Own>, p: nat, k: nat, ns: nat)
    ensures Insert(owner, p, k, ns).Keys == owner.Keys + RowSet(p, k, ns)
  {
  }

  /** Taking a row of free nodes turns it into one allocation. */
  lemma Take(free: seq<nat>, held: map<nat, nat>, owner: map<nat, Own>, ns: nat, at: nat, k: nat)
    requires Partition(free, held, owner, ns)
    requires k > 0 && RowAt(free, at, k, ns)
    ensures var p := free[at];
            && p !in held
            && Partition(Without(free, at, k), held[p := k], Assign(owner, p, k, k, ns, Held(p), Held(p)), ns)
  {
    var p, free' := free[at], Without(free, at, k);
    var owner' := Assign(owner, p, k, k, ns, Held(p), Held(p));
    assert At(p, 0, ns) == p;
    assert p !in held;
    assert forall s :: InRow(s, p, k, ns) ==> s in owner && owner[s] == Free;
    TakeFree(free, owner, ns, at, k);
    var held' := held[p := k];
    forall q, i | q in held' && 0 <= i < held'[q]
      ensures At(q, i, ns) in owner' && owner'[At(q, i, ns)] == Held(q)
    {
      if q == p {
        assert InRow(At(q, i, ns), p, k, ns);
        assert free[at + i] == At(p, i, ns);
      }
    }
  }

  lemma TakeFree(free: seq<nat>, owner: map<nat, Own>, ns: nat, at: nat, k: nat)
    requires FreeOwned(free, owner) && RowAt(free, at, k, ns) && k > 0
    ensures var p := free[at];
            FreeOwned(Without(free, at, k), Assign(owner, p, k, k, ns, Held(p), Held(p)))
  {
    var p, free' := free[at], Without(free, at, k);
    var owner' := Assign(owner, p, k, k, ns, Held(p), Held(p));
    forall i | 0 <= i < |free'|
      ensures free'[i] in owner' && owner'[free'[i]] == Free
    {
      var i' := if i < at then i else i + k;
      assert free'[i] == free[i'];
    }
    forall i | at <= i < at + k
      ensures InRow(free[i], p, k, ns)
    {
      assert free[at + (i - at)] == At(p, i - at, ns);
    }
    forall s | s in owner' && owner'[s] == Free
      ensures s in free'
    {
      var i :| 0 <= i < |free| && free[i] == s;
      assert i < at ==> free'[i] == s;
      assert i >= at + k ==> free'[i - k] == s;
    }
  }

  /** Giving back the first `j` nodes of an allocation of `k` frees those; the others are lost. */
  lemma Give(free: seq<nat>, held: map<nat, nat>, owner: map<nat, Own>, ns: nat, p: nat, j: nat)
    requires Partition(free, held, owner, ns) && p in held && 0 < j <= held[p]
    ensures Partition(RowOf(p, j, ns) + free, held - {p}, Assign(owner, p, j, held[p], ns, Free, Lost), ns)
  {
    AssignKeys(owner, p, j, held[p], ns, Free, Lost);
    GiveFree(free, held, owner, ns, p, j);
    GiveHeld(held, owner, ns, p, j);
  }

  lemma GiveHeld(held: map<nat, nat>, owner: map<nat, Own>, ns: nat, p: nat, j: nat)
    requires HeldOwned(held, owner, ns) && p in held && 0 < j <= held[p]
    ensures HeldOwned(held - {p}, Assign(owner, p, j, held[p], ns, Free, Lost), ns)
  {
    var k := held[p];
    var owner' := Assign(owner, p, j, k, ns, Free, Lost);
    forall s | s in owner && InRow(s, p, k, ns)
      ensures owner[s] == Held(p)
    {
    }
    forall s | s in owner' && owner'[s].Held?
      ensures owner'[s].base in held - {p} && InRow(s, owner'[s].base, (held - {p})[owner'[s].base], ns)
    {
      assert owner'[s] == owner[s] && !InRow(s, p, k, ns);
    }
  }

  lemma GiveFree(free: seq<nat>, held: map<nat, nat>, owner: map<nat, Own>, ns: nat, p: nat, j: nat)
    requires Partition(free, held, owner, ns) && p in held && 0 < j <= held[p]
    ensures FreeOwned(RowOf(p, j, ns) + free, Assign(owner, p, j, held[p], ns, Free, Lost))
  {
    hide HeldOwned, Spaced;
    var k := held[p];
    var free', owner' := RowOf(p, j, ns) + free, Assign(owner, p, j, k, ns, Free, Lost);
    HeldRowOwned(held, owner, ns, p, k);
    RowFree(free, ns, p, j);
    forall i | 0 <= i < |free'|
      ensures free'[i] in owner' && owner'[free'[i]] == Free
    {
      if i < j {
        assert InRow(free'[i], p, j, ns);
      } else {
        assert free'[i] == free[i - j];
      }
    }
    forall s | s in owner' && owner'[s] == Free
      ensures s in free'
    {
      if i :| 0 <= i < j && s == At(p, i, ns) {
        assert free'[i] == s;
      } else {
        var i :| 0 <= i < |free| && free[i] == s;
        assert free'[j + i] == s;
      }
    }
  }

  lemma HeldRowOwned(held: map<nat, nat>, owner: map<nat, Own>, ns: nat, p: nat, k: nat)
    requires HeldOwned(held, owner, ns) && p in held && k == held[p]
    ensures forall i :: 0 <= i < k ==> At(p, i, ns) in owner && owner[At(p, i, ns)] == Held(p)
  {
  }

  /** `Give`, with what the class needs to know about the nodes given back. */
  lemma GiveBack(free: seq<nat>, held: map<nat, nat>, owner: map<nat, Own>, ns: nat, p: nat, j: nat)
    requires Partition(free, held, owner, ns) && p in held && 0 < j <= held[p]
    ensures p != 0 && p % WORD == 0
    ensures forall s :: s in RowSet(p, j, ns) ==> s !in free && s in owner
    ensures var owner' := Assign(owner, p, j, held[p], ns, Free, Lost);
            && Partition(RowOf(p, j, ns) + free, held - {p}, owner', ns)
            && owner'.Keys == owner.Keys && |owner'| == |owner|
  {
    Facts(free, held, owner, ns);
    HeldRow(free, held, owner, ns, p, j);
    Give(free, held, owner, ns, p, j);
    AssignKeys(owner, p, j, held[p], ns, Free, Lost);
  }

  /** A row whose nodes are not in the list can go in front of it. */
  lemma RowFree(free: seq<nat>, ns: nat, p: nat, j: nat)
    requires ns > 0 && NoDup(free)
    requires forall i :: 0 <= i < j ==> At(p, i, ns) !in free
    ensures NoDup(RowOf(p, j, ns) + free)
  {
    var free' := RowOf(p, j, ns) + free;
    forall a, b | 0 <= a < b < |free'|
      ensures free'[a] != free'[b]
    {
      if b < j {
        AtOrder(p, a, b, ns);
      } else if a < j {
        assert free'[b] == free[b - j];
      }
    }
  }

  /** Adding a fresh row of nodes that meets no slot. */
  lemma Grow(free: seq<nat>, held: map<nat, nat>, owner: map<nat, Own>, ns: nat, p: nat, k: nat)
    requires Partition(free, held, owner, ns)
    requires p != 0 && p % WORD == 0 && ns % WORD == 0
    requires forall s :: s in owner ==> Apart(s, ns, p, k * ns)
    ensures forall s :: s in RowSet(p, k, ns) ==> s !in owner
    ensures Partition(RowOf(p, k, ns) + free, held, Insert(owner, p, k, ns), ns)
    ensures |Insert(owner, p, k, ns)| == |owner| + k
  {
    hide Spaced, FreeOwned, HeldOwned, Insert;
    RowMeetsNone(owner, ns, p, k);
    GrowSpaced(owner, ns, p, k);
    GrowFree(free, owner, ns, p, k);
    GrowHeld(held, owner, ns, p, k);
    GrowCount(owner, p, k, ns);
  }

  lemma RowMeetsNone(owner: map<nat, Own>, ns: nat, p: nat, k: nat)
    requires ns > 0 && forall s :: s in owner ==> Apart(s, ns, p, k * ns)
    ensures forall s :: s in RowSet(p, k, ns) ==> s !in owner
    ensures forall i :: 0 <= i < k ==> At(p, i, ns) !in owner
  {
    RowInside(p, k, ns);
    forall i | 0 <= i < k
      ensures At(p, i, ns) !in owner
    {
      assert RowOf(p, k, ns)[i] in RowSet(p, k, ns);
    }
  }

  lemma GrowHeld(held: map<nat, nat>, owner: map<nat, Own>, ns: nat, p: nat, k: nat)
    requires HeldOwned(held, owner, ns)
    requires forall s :: s in RowSet(p, k, ns) ==> s !in owner
    ensures HeldOwned(held, Insert(owner, p, k, ns), ns)
  {
  }

  lemma RowSpaced(p: nat, k: nat, ns: nat)
    requires p != 0 && p % WORD == 0 && ns % WORD == 0
    ensures forall s :: s in RowSet(p, k, ns) ==> s != 0 && s % WORD == 0
    ensures forall s, t :: s in RowSet(p, k, ns) && t in RowSet(p, k, ns) && s < t ==> s + ns <= t
  {
    var row := RowOf(p, k, ns);
    forall s | s in row
      ensures s != 0 && s % WORD == 0
    {
      var i :| 0 <= i < k && row[i] == s;
      Multiple(p, i, ns);
      NotBefore(p, i, ns);
    }
    forall s, t | s in row && t in row && s < t
      ensures s + ns <= t
    {
      var i :| 0 <= i < k && row[i] == s;
      var j :| 0 <= j < k && row[j] == t;
      if i < j {
        AtOrder(p, i, j, ns);
      } else if j < i {
        AtOrder(p, j, i, ns);
      }
    }
  }

  lemma GrowSpaced(owner: map<nat, Own>, ns: nat, p: nat, k: nat)
    requires Spaced(owner, ns) && ns > 0
    requires p != 0 && p % WORD == 0 && ns % WORD == 0
    requires forall s :: s in owner ==> Apart(s, ns, p, k * ns)
    ensures Spaced(Insert(owner, p, k, ns), ns)
  {
    hide RowOf, RowSet;
    RowInside(p, k, ns);
    RowSpaced(p, k, ns);
  }

  lemma GrowFree(free: seq<nat>, owner: map<nat, Own>, ns: nat, p: nat, k: nat)
    requires ns > 0 && FreeOwned(free, owner)
    requires forall i :: 0 <= i < k ==> At(p, i, ns) !in owner
    ensures FreeOwned(RowOf(p, k, ns) + free, Insert(owner, p, k, ns))
  {
    var row, owner' := RowOf(p, k, ns), Insert(owner, p, k, ns);
    var free' := row + free;
    RowFree(free, ns, p, k);
    forall i | 0 <= i < |free'|
      ensures free'[i] in owner' && owner'[free'[i]] == Free
    {
      assert free'[i] == if i < k then row[i] else free[i - k];
    }
    forall s | s in owner' && owner'[s] == Free
      ensures s in free'
    {
      assert s in row || s in free;
    }
  }

  lemma {:induction false} Multiple(p: nat, i: nat, ns: nat)
    requires p % WORD == 0 && ns % WORD == 0
    ensures At(p, i, ns) % WORD == 0
  {
    if i > 0 {
      Multiple(p, i - 1, ns);
    }
  }

  lemma {:induction false} NotBefore(p: nat, i: nat, ns: nat)
    ensures p <= At(p, i, ns)
  {
    if i > 0 {
      NotBefore(p, i - 1, ns);
    }
  }

  /** Every node of a row of `k` lies inside `k * ns` bytes. */
  lemma RowInside(p: nat, k: nat, ns: nat)
    requires ns > 0
    ensures forall s :: s in RowSet(p, k, ns) ==> p <= s && s + ns <= p + k * ns
  {
    AtMul(p, k, ns);
    forall s | s in RowSet(p, k, ns)
      ensures p <= s && s + ns <= p + k * ns
    {
      var i :| 0 <= i < k && RowOf(p, k, ns)[i] == s;
      AtOrder(p, i, k, ns);
      NotBefore(p, i, ns);
    }
  }

  lemma GrowCount(owner: map<nat, Own>, p: nat, k: nat, ns: nat)
    requires ns > 0
    requires forall i :: 0 <= i < k ==> At(p, i, ns) !in owner
    ensures |Insert(owner, p, k, ns)| == |owner| + k
  {
    RowFree([], ns, p, k);
    assert RowOf(p, k, ns) + [] == RowOf(p, k, ns);
    UnionCount(owner, RowOf(p, k, ns), RowSet(p, k, ns));
  }

  lemma UnionCount(owner: map<nat, Own>, row: seq<nat>, nodes: set<nat>)
    requires NoDup(row) && nodes == (set s | s in row)
    requires forall i :: 0 <= i < |row| ==> row[i] !in owner
    ensures |owner + map s | s in nodes :: Free| == |owner| + |row|
  {
    var added := map s | s in nodes :: Free;
    DistinctCount(row);
    assert added.Keys == set i | 0 <= i < |row| :: row[i];
    JoinCount(owner, added);
  }

  lemma JoinCount(m: map<nat, Own>, n: map<nat, Own>)
    requires m.Keys !! n.Keys
    ensures |m + n| == |m| + |n|
  {
    assert (m + n).Keys == m.Keys + n.Keys;
    assert |m.Keys + n.Keys| == |m.Keys| + |n.Keys|;
  }

  /** A list that leaves out a slot is shorter than the number of slots. */
  lemma FewerFree(free: seq<nat>, held: map<nat, nat>, owner: map<nat, Own>, ns: nat, p: nat)
    requires Partition(free, held, owner, ns) && p in held
    ensures |free| < |owner|
  {
    assert At(p, 0, ns) == p;
    DistinctCount(free);
    var s := set i | 0 <= i < |free| :: free[i];
    assert p !in s && s + {p} <= owner.Keys;
    Subset(s + {p}, owner.Keys);
  }

  lemma {:induction false} DistinctCount(free: seq<nat>)
    requires NoDup(free)
    ensures |set i | 0 <= i < |free| :: free[i]| == |free|
  {
    if free != [] {
      var n := |free| - 1;
      DistinctCount(free[..n]);
      assert (set i | 0 <= i < |free| :: free[i]) == (set i | 0 <= i < n :: free[..n][i]) + {free[n]};
    }
  }

  lemma {:induction false} Subset(s: set<nat>, t: set<nat>)
    requires s <= t
    ensures |s| <= |t|
  {
    if x :| x in s {
      Subset(s - {x}, t - {x});
    }
  }
}
