/**
 * Pointer resolution: an instruction position is stored as the pair
 * (FuncId, distance from that function's first instruction). The function
 * table is given by the positions of the functions' first instructions,
 * `starts[f]` for FuncId `f`.
 */
module PointerResolver {
  import opened Wrappers
  import opened Scalars

  /** The start positions present in the table. */
  function StartSet(starts: seq<u64>): set<u64>
  {
    set i | 0 <= i < |starts| :: starts[i]
  }

  /**
   * `FuncMap` after the loop of `save_stack`: every start position maps to a
   * FuncId with that start, and to the last such FuncId, since a later
   * `FuncMap[begin] = FuncId` overwrites an earlier one.
   */
  ghost predicate IsFuncMap(starts: seq<u64>, m: map<u64, nat>)
  {
    && m.Keys == StartSet(starts)
    && forall s :: s in m ==>
         && m[s] < |starts| && starts[m[s]] == s
         && forall j :: m[s] < j < |starts| ==> starts[j] != s
  }

  /** The loop of `save_stack` that fills `FuncMap`. */
  method BuildFuncMap(starts: seq<u64>) returns (m: map<u64, nat>)
    ensures IsFuncMap(starts, m)
  {
    m := map[];
    var id := 0;
    while id < |starts|
      invariant id <= |starts|
      invariant IsFuncMap(starts[..id], m)
    {
      assert StartSet(starts[..id + 1]) == StartSet(starts[..id]) + {starts[id]} by {
        assert forall i :: 0 <= i < id ==> starts[..id + 1][i] == starts[..id][i];
      }
      m := m[starts[id] := id];
      id := id + 1;
    }
    assert starts[..id] == starts;
  }

  /**
   * `upper_bound(P)` followed by `--`: the entry with the greatest key not
   * above `p`, or None when `upper_bound` returns `begin()`.
   */
  method FloorEntry(m: map<u64, nat>, p: u64) returns (e: Option<(u64, nat)>)
    ensures e.None? <==> forall k :: k in m ==> k > p
    ensures e.Some? ==> e.value.0 in m && e.value.0 <= p && m[e.value.0] == e.value.1
    ensures e.Some? ==> forall k :: k in m && k <= p ==> k <= e.value.0
  {
    e := None;
    var keys := m.Keys;
    while keys != {}
      invariant keys <= m.Keys
      invariant e.None? <==> forall k :: k in m && k !in keys ==> k > p
      invariant e.Some? ==> e.value.0 in m && e.value.0 <= p && m[e.value.0] == e.value.1
      invariant e.Some? ==> forall k :: k in m && k !in keys && k <= p ==> k <= e.value.0
      decreases |keys|
    {
      var k :| k in keys;
      if k <= p && (e.None? || k > e.value.0) {
        e := Some((k, m[k]));
      }
      keys := keys - {k};
    }
  }

  /**
   * The FuncId `save_stack` pairs with position `p`: the function whose start
   * is the greatest start not above `p`, the last such one on a tie; None when
   * every function starts after `p` (the source then throws).
   */
  function Resolve(starts: seq<u64>, p: u64): (r: Option<nat>)
    ensures r.Some? ==> r.value < |starts| && starts[r.value] <= p
  {
    ResolveAmong(starts, |starts|, p)
  }

  /** The same search restricted to the first `n` functions. */
  function ResolveAmong(starts: seq<u64>, n: nat, p: u64): (r: Option<nat>)
    requires n <= |starts|
    ensures r.Some? ==> r.value < n && starts[r.value] <= p
  {
    if n == 0 then None
    else
      var prev := ResolveAmong(starts, n - 1, p);
      if starts[n - 1] <= p && (prev.None? || starts[prev.value] <= starts[n - 1]) then Some(n - 1)
      else prev
  }

  /**
   * `Resolve` is the predecessor search: it fails exactly when every function
   * starts after `p`, and otherwise picks the greatest start not above `p`,
   * the last FuncId with that start on a tie.
   */
  lemma ResolveIsGreatestStart(starts: seq<u64>, p: u64)
    ensures var r := Resolve(starts, p);
      && (r.None? <==> forall i :: 0 <= i < |starts| ==> starts[i] > p)
      && (r.Some? ==> forall i :: 0 <= i < |starts| && starts[i] <= p ==> starts[i] <= starts[r.value])
      && (r.Some? ==> forall i :: r.value < i < |starts| ==> starts[i] != starts[r.value])
  {
    ResolveAmongIsGreatestStart(starts, |starts|, p);
  }

  lemma {:induction false} ResolveAmongIsGreatestStart(starts: seq<u64>, n: nat, p: u64)
    requires n <= |starts|
    ensures var r := ResolveAmong(starts, n, p);
      && (r.None? <==> forall i :: 0 <= i < n ==> starts[i] > p)
      && (r.Some? ==> forall i :: 0 <= i < n && starts[i] <= p ==> starts[i] <= starts[r.value])
      && (r.Some? ==> forall i :: r.value < i < n ==> starts[i] != starts[r.value])
  {
    if n > 0 {
      ResolveAmongIsGreatestStart(starts, n - 1, p);
    }
  }

  /** Looking `p` up in the filled `FuncMap` gives `Resolve(starts, p)`. */
  lemma FloorEntryResolves(starts: seq<u64>, m: map<u64, nat>, p: u64, e: Option<(u64, nat)>)
    requires IsFuncMap(starts, m)
    requires e.None? <==> forall k :: k in m ==> k > p
    requires e.Some? ==> e.value.0 in m && e.value.0 <= p && m[e.value.0] == e.value.1
    requires e.Some? ==> forall k :: k in m && k <= p ==> k <= e.value.0
    ensures Resolve(starts, p) == if e.None? then None else Some(e.value.1)
  {
    ResolveIsGreatestStart(starts, p);
    var r := Resolve(starts, p);
    if r.Some? {
      var f := r.value;
      assert starts[f] in StartSet(starts);
      var k := e.value.0;
      assert k in StartSet(starts);
      var i :| 0 <= i < |starts| && starts[i] == k;
      assert k == starts[f];
    }
  }

  /** `save_pointer`: the FuncId and the distance of `p` from its first instruction. */
  function SavePointer(starts: seq<u64>, f: nat, p: u64): (ptr: (nat, u64))
    requires f < |starts| && starts[f] <= p
    ensures ptr.0 == f && starts[f] + ptr.1 == p
  {
    (f, p - starts[f])
  }

  /** `load_pointer`: the first instruction of function `f` advanced by `offset`. */
  function LoadPointer(starts: seq<u64>, f: nat, offset: u64): (r: Option<u64>)
    ensures r.Some? <==> f < |starts|
    ensures r.Some? && starts[f] + offset < U64_BOUND ==> r.value == starts[f] + offset
  {
    if f < |starts| then Some(Wrap64(starts[f] + offset)) else None
  }

  /** Saving a resolved position and loading it back gives the position. */
  lemma PointerRoundTrip(starts: seq<u64>, p: u64)
    requires Resolve(starts, p).Some?
    ensures var ptr := SavePointer(starts, Resolve(starts, p).value, p);
            LoadPointer(starts, ptr.0, ptr.1) == Some(p)
  {
  }

  /** A position at a function's first instruction resolves to that function when starts are distinct. */
  lemma {:induction false} StartResolvesToItself(starts: seq<u64>, f: nat)
    requires f < |starts|
    requires forall i, j :: 0 <= i < j < |starts| ==> starts[i] != starts[j]
    ensures Resolve(starts, starts[f]) == Some(f)
  {
    ResolveIsGreatestStart(starts, starts[f]);
    var r := Resolve(starts, starts[f]);
    assert r.Some?;
    assert starts[r.value] == starts[f];
  }

  /**
   * With functions laid out in disjoint, non-empty ranges
   * [starts[i], starts[i] + lens[i]), every position inside function f
   * resolves to f.
   */
  lemma ResolveWithinFunction(starts: seq<u64>, lens: seq<nat>, f: nat, p: u64)
    requires |lens| == |starts| && f < |starts|
    requires forall i :: 0 <= i < |lens| ==> lens[i] > 0
    requires forall i, j :: 0 <= i < |starts| && 0 <= j < |starts| && i != j ==>
               starts[i] + lens[i] <= starts[j] || starts[j] + lens[j] <= starts[i]
    requires starts[f] <= p < starts[f] + lens[f]
    ensures Resolve(starts, p) == Some(f)
  {
    ResolveIsGreatestStart(starts, p);
    var r := Resolve(starts, p);
    assert r.Some?;
    assert starts[f] <= starts[r.value];
  }
}
