/**
 * `useActiveSection`: the navigation's notion of which page section the
 * visitor is reading. Every observed section's latest visible ratio is kept
 * in an insertion-ordered map, and the section with the largest positive
 * ratio wins, the earliest inserted one on a tie.
 */
module ActiveSection {
  import opened Optional

  /** One map entry: a section id and its latest intersection ratio. */
  datatype Entry = Entry(id: string, ratio: real)

  /** `intersectionMap`: a JavaScript `Map`, which iterates in first-insertion order. */
  type Ratios = seq<Entry>

  /** A map never holds the same key twice. */
  predicate DistinctIds(m: Ratios)
  {
    forall i, j :: 0 <= i < j < |m| ==> m[i].id != m[j].id
  }

  /** The position of `id` in the map. */
  function Position(m: Ratios, id: string): (r: Option<nat>)
    ensures r.Some? ==> r.value < |m| && m[r.value].id == id
    ensures r.None? ==> forall k :: 0 <= k < |m| ==> m[k].id != id
    decreases |m|
  {
    if |m| == 0 then None
    else if m[|m| - 1].id == id then Some(|m| - 1)
    else Position(m[..|m| - 1], id)
  }

  /** The ratio stored for `id`. */
  function Lookup(m: Ratios, id: string): Option<real>
  {
    var p := Position(m, id);
    if p.Some? then Some(m[p.value].ratio) else None
  }

  /**
   * `intersectionMap.set(id, ratio)`: an existing key keeps its place and
   * takes the new value; a new key goes to the end.
   */
  function Set(m: Ratios, id: string, ratio: real): (r: Ratios)
    ensures Position(m, id).Some? ==> |r| == |m| && r == m[Position(m, id).value := Entry(id, ratio)]
    ensures Position(m, id).None? ==> r == m + [Entry(id, ratio)]
    ensures DistinctIds(m) ==> DistinctIds(r)
  {
    var p := Position(m, id);
    if p.Some? then m[p.value := Entry(id, ratio)] else m + [Entry(id, ratio)]
  }

  /** In a well-formed map, `id` now reads `ratio`, every other key reads what it did, and the keys keep their order. */
  lemma SetOverwritesOnlyItsOwn(m: Ratios, id: string, ratio: real, other: string)
    requires DistinctIds(m)
    ensures Lookup(Set(m, id, ratio), id) == Some(ratio)
    ensures other != id ==> Lookup(Set(m, id, ratio), other) == Lookup(m, other)
    ensures forall k :: 0 <= k < |m| ==> Set(m, id, ratio)[k].id == m[k].id
  {
    var r := Set(m, id, ratio);
    assert DistinctIds(r);
    PositionUnique(r, id);
    if other != id {
      PositionUnique(r, other);
      PositionUnique(m, other);
    }
  }

  /** With distinct keys, a key's position is the one index holding it. */
  lemma PositionUnique(m: Ratios, id: string)
    requires DistinctIds(m)
    ensures forall k :: 0 <= k < |m| && m[k].id == id ==> Position(m, id) == Some(k)
  {
  }

  /**
   * The `forEach` over the first `n` entries with a strict `>`, starting
   * from a best ratio of 0: the index of the entry it settles on, if any.
   */
  function Scan(m: Ratios, n: nat): (r: Option<nat>)
    requires n <= |m|
    // nothing above 0 means nothing chosen
    ensures r.None? <==> forall k :: 0 <= k < n ==> m[k].ratio <= 0.0
    // the choice is positive and at least every ratio seen
    ensures r.Some? ==> r.value < n && m[r.value].ratio > 0.0
    ensures r.Some? ==> forall k :: 0 <= k < n ==> m[k].ratio <= m[r.value].ratio
    // and strictly above every earlier one: ties go to the first
    ensures r.Some? ==> forall k :: 0 <= k < r.value ==> m[k].ratio < m[r.value].ratio
    decreases n
  {
    if n == 0 then None
    else
      var before := Scan(m, n - 1);
      var best := if before.Some? then m[before.value].ratio else 0.0;
      if m[n - 1].ratio > best then Some(n - 1) else before
  }

  /** The leader a declarative reading describes: positive, maximal, and the first at its ratio. */
  predicate IsLeader(m: Ratios, i: nat)
  {
    && i < |m| && m[i].ratio > 0.0
    && (forall k :: 0 <= k < |m| ==> m[k].ratio <= m[i].ratio)
    && (forall k :: 0 <= k < i ==> m[k].ratio < m[i].ratio)
  }

  /** There is at most one leader. */
  lemma LeaderUnique(m: Ratios, i: nat, j: nat)
    ensures IsLeader(m, i) && IsLeader(m, j) ==> i == j
  {
  }

  /** The scan finds the leader exactly: it returns an index iff that index is the leader, and nothing iff there is none. */
  lemma ScanIsLeader(m: Ratios, i: nat)
    ensures Scan(m, |m|) == Some(i) <==> IsLeader(m, i)
    ensures Scan(m, |m|).None? <==> (forall k :: 0 <= k < |m| ==> !IsLeader(m, k))
  {
    var r := Scan(m, |m|);
    if r.Some? {
      assert IsLeader(m, r.value);
      LeaderUnique(m, i, r.value);
    }
  }

  /** The section the navigation highlights after a batch of observer entries. */
  function OnEntries(active: string, m: Ratios, entries: seq<Entry>): (r: (string, Ratios))
    ensures r.1 == SetAll(m, entries)
    ensures var leader := Scan(r.1, |r.1|);
            && (leader.Some? && r.1[leader.value].id != "" ==> r.0 == r.1[leader.value].id)
            && (leader.None? || r.1[leader.value].id == "" ==> r.0 == active)
  {
    var next := SetAll(m, entries);
    var leader := Scan(next, |next|);
    if leader.Some? && next[leader.value].id != "" then (next[leader.value].id, next) else (active, next)
  }

  /** The entries recorded in order. */
  function SetAll(m: Ratios, entries: seq<Entry>): (r: Ratios)
    ensures DistinctIds(m) ==> DistinctIds(r)
    decreases |entries|
  {
    if |entries| == 0 then m else SetAll(Set(m, entries[0].id, entries[0].ratio), entries[1..])
  }

  /** The highlighted section starts out as none. */
  const InitialActive: string := ""

  /** If no section shows at all the highlight stays where it was. */
  lemma NothingVisibleKeepsActive(active: string, m: Ratios, entries: seq<Entry>)
    requires forall k :: 0 <= k < |SetAll(m, entries)| ==> SetAll(m, entries)[k].ratio <= 0.0
    ensures OnEntries(active, m, entries).0 == active
  {
  }

  /** Recording two new sections keeps them in the order observed; recording one again updates it in place. */
  lemma RecordTwo(a: string, b: string, r: real, r2: real)
    requires a != b
    ensures SetAll([], [Entry(a, r), Entry(b, r)]) == [Entry(a, r), Entry(b, r)]
    ensures SetAll([Entry(a, r), Entry(b, r)], [Entry(b, r2)]) == [Entry(a, r), Entry(b, r2)]
  {
    assert Set([], a, r) == [Entry(a, r)];
    assert Position([Entry(a, r)][..0], b).None?;
    assert Position([Entry(a, r)], b).None?;
    assert Set([Entry(a, r)], b, r) == [Entry(a, r), Entry(b, r)];
    assert [Entry(a, r), Entry(b, r)][1..] == [Entry(b, r)];
    assert [Entry(b, r)][1..] == [];
    assert SetAll([], [Entry(a, r), Entry(b, r)]) == SetAll([Entry(a, r)], [Entry(b, r)]);
    assert SetAll([Entry(a, r)], [Entry(b, r)]) == SetAll([Entry(a, r), Entry(b, r)], []);
    assert Position([Entry(a, r), Entry(b, r)], b) == Some(1);
    assert [Entry(b, r2)][1..] == [];
  }

  /** Of two entries, the second leads only when its ratio is strictly higher. */
  lemma LeaderOfPair(a: string, b: string, r1: real, r2: real)
    requires r1 > 0.0
    ensures Scan([Entry(a, r1), Entry(b, r2)], 2) == (if r2 > r1 then Some(1) else Some(0))
  {
    var m := [Entry(a, r1), Entry(b, r2)];
    var i := if r2 > r1 then 1 else 0;
    assert IsLeader(m, i);
    ScanIsLeader(m, i);
  }

  /**
   * Two sections tied at the top: the one observed first takes the
   * highlight, and keeps it until the other's ratio strictly exceeds its own.
   */
  lemma TieGoesToFirstInserted(active: string, a: string, b: string, r: real, r2: real)
    requires a != b && a != "" && b != "" && r > 0.0
    ensures OnEntries(active, [], [Entry(a, r), Entry(b, r)]).0 == a
    ensures OnEntries(a, [Entry(a, r), Entry(b, r)], [Entry(b, r2)]).0 == (if r2 > r then b else a)
  {
    RecordTwo(a, b, r, r2);
    LeaderOfPair(a, b, r, r);
    LeaderOfPair(a, b, r, r2);
  }

  /** Recording keys none of which is in the map yet, each once, appends them in order. */
  lemma {:induction false} SetAllFresh(m: Ratios, entries: seq<Entry>)
    requires DistinctIds(m + entries)
    ensures SetAll(m, entries) == m + entries
    decreases |entries|
  {
    if |entries| > 0 {
      var e := entries[0];
      forall k | 0 <= k < |m|
        ensures m[k].id != e.id
      {
        assert (m + entries)[k] == m[k] && (m + entries)[|m|] == e;
      }
      assert Position(m, e.id).None?;
      assert m + [e] + entries[1..] == m + entries;
      SetAllFresh(m + [e], entries[1..]);
    }
  }

  /**
   * A render of the header passes a new `sectionIds` array, so the effect
   * runs again: the old observer is disconnected and the new one starts from
   * an empty map, while the highlight (React state) carries over. The new
   * observer's first batch reports each observed section once (so its ids
   * are distinct), in the order observed, with its current ratio.
   */
  function Resubscribe(active: string, batch: seq<Entry>): (r: (string, Ratios))
    // the fresh map holds the current ratios and nothing from before
    ensures DistinctIds(batch) ==> r.1 == batch
    ensures var leader := Scan(r.1, |r.1|);
            && (leader.Some? && r.1[leader.value].id != "" ==> r.0 == r.1[leader.value].id)
            && (leader.None? || r.1[leader.value].id == "" ==> r.0 == active)
  {
    assert DistinctIds(batch) ==> SetAll([], batch) == batch by {
      if DistinctIds(batch) {
        assert [] + batch == batch;
        SetAllFresh([], batch);
      }
    }
    OnEntries(active, [], batch)
  }

  /**
   * A ratio the map keeps can be stale: section `a` was last reported at
   * `ra` and `b` at a higher `rb`, so `b` is highlighted. If `a` then grows
   * past `rb` without crossing another threshold, no entry reports it; a
   * re-subscription reads the current ratios and moves the highlight to `a`.
   */
  lemma RenderRereadsRatios(a: string, b: string, ra: real, rb: real, now: real)
    requires a != b && a != "" && b != ""
    requires 0.0 < ra < rb < now
    ensures OnEntries(InitialActive, [], [Entry(a, ra), Entry(b, rb)]).0 == b
    ensures Resubscribe(b, [Entry(a, now), Entry(b, rb)]).0 == a
  {
    PairDistinct(a, b, ra, rb);
    PairDistinct(a, b, now, rb);
    SetAllFresh([], [Entry(a, ra), Entry(b, rb)]);
    assert [] + [Entry(a, ra), Entry(b, rb)] == [Entry(a, ra), Entry(b, rb)];
    LeaderOfPair(a, b, ra, rb);
    LeaderOfPair(a, b, now, rb);
  }

  lemma PairDistinct(a: string, b: string, r1: real, r2: real)
    requires a != b
    ensures DistinctIds([Entry(a, r1), Entry(b, r2)])
    ensures DistinctIds([] + [Entry(a, r1), Entry(b, r2)])
  {
    assert [] + [Entry(a, r1), Entry(b, r2)] == [Entry(a, r1), Entry(b, r2)];
  }
}
