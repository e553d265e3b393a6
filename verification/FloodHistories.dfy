/** The ring of recently seen floods (src/awds/FloodHistory.h, src/FloodHistory.cc). */
module FloodHistories {
  import opened Bytes

  const NUM_ENTRIES: nat := 0x80

  /** A flood is identified by its source and a 16-bit sequence number. */
  datatype FloodId = FloodId(src: NodeId, seqNo: nat)

  /** The entries a history of insertions `log` still remembers. */
  function Window(log: seq<FloodId>): (w: seq<FloodId>) {
    if |log| <= NUM_ENTRIES then log else log[|log| - NUM_ENTRIES..]
  }

  class FloodHistory {
    const hist: array<FloodId>
    var end: nat
    var count: nat
    /** All insertions so far. */
    ghost var log: seq<FloodId>

    ghost predicate Valid()
      reads this, hist
    {
      && hist.Length == NUM_ENTRIES && end < NUM_ENTRIES
      && count == (if |log| <= NUM_ENTRIES then |log| else NUM_ENTRIES)
      && forall k | 0 <= k < count :: hist[Back(end, k)] == Ago(log, k)
    }

    constructor ()
      ensures Valid() && log == [] && fresh(hist)
    {
      hist := new FloodId[NUM_ENTRIES](_ => FloodId(0, 0));
      end, count, log := 0, 0, [];
    }

    method Insert(id: FloodId)
      requires Valid()
      modifies this, hist
      ensures Valid() && log == old(log) + [id]
    {
      ghost var e0 := end;
      end := (end + 1) % NUM_ENTRIES;
      hist[end] := id;
      count := if count + 1 < NUM_ENTRIES then count + 1 else NUM_ENTRIES;
      log := log + [id];
      forall k | 0 <= k < count ensures hist[Back(end, k)] == Ago(log, k) {
        if k > 0 {
          assert Back(end, k) == Back(e0, k - 1) && Back(end, k) != end;
        }
      }
    }

    /** `contains` answers exactly for the last 128 insertions. */
    method Contains(id: FloodId) returns (r: bool)
      requires Valid()
      ensures r <==> id in Window(log)
    {
      var p := end;
      for i := 0 to count
        invariant p == Back(end, i)
        invariant forall k | 0 <= k < i :: Ago(log, k) != id
      {
        if hist[p] == id {
          InWindow(log, i);
          return true;
        }
        p := if p == 0 then NUM_ENTRIES - 1 else p - 1;
      }
      ghost var w := Window(log);
      forall j | 0 <= j < |w| ensures w[j] != id {
        assert w[j] == Ago(log, |w| - 1 - j);
      }
      return false;
    }
  }

  /** The ring position `k` places before `end`. */
  function Back(end: nat, k: nat): (p: nat)
    requires end < NUM_ENTRIES && k <= NUM_ENTRIES
    ensures p < NUM_ENTRIES
  {
    if k <= end then end - k else end + NUM_ENTRIES - k
  }

  /** The entry inserted `k` insertions before the last one. */
  function Ago(log: seq<FloodId>, k: nat): FloodId
    requires k < |log|
  {
    log[|log| - 1 - k]
  }

  lemma InWindow(log: seq<FloodId>, k: nat)
    requires k < |Window(log)|
    ensures Ago(log, k) in Window(log)
  {
    var w := Window(log);
    assert w[|w| - 1 - k] == Ago(log, k);
  }

  /** A log in which every entry was accepted: not remembered when inserted. */
  ghost predicate Accepted(log: seq<FloodId>) {
    forall j {:trigger log[j]} | 0 <= j < |log| :: log[j] !in Window(log[..j])
  }

  lemma Remembered(log: seq<FloodId>, i: nat, j: nat)
    requires i < j <= |log| && j - i <= NUM_ENTRIES
    ensures log[i] in Window(log[..j])
  {
    InWindow(log[..j], j - 1 - i);
  }

  /** Acceptances of the same flood are more than 128 acceptances apart. */
  lemma RepeatDistance(log: seq<FloodId>, i: nat, j: nat)
    requires Accepted(log) && i < j < |log| && log[i] == log[j]
    ensures j - i > NUM_ENTRIES
  {
    if j - i <= NUM_ENTRIES {
      hide Window;
      Remembered(log, i, j);
      assert false;
    }
  }

  /** The 128 acceptances before `j` are pairwise distinct and of other floods,
      and `i` lies before all of them. */
  ghost predicate OthersBetween(log: seq<FloodId>, i: nat, j: nat)
    requires i < j < |log|
  {
    && i < j - NUM_ENTRIES
    && (forall a | j - NUM_ENTRIES <= a < j :: log[a] != log[j])
    && (forall a, b | j - NUM_ENTRIES <= a < b < j :: log[a] != log[b])
  }

  /** Duplicate window: a flood that stands twice in the log of a receiver was
      accepted again only after 128 pairwise distinct other ones. */
  lemma DuplicateWindow(log: seq<FloodId>, i: nat, j: nat)
    requires Accepted(log) && i < j < |log| && log[i] == log[j]
    ensures OthersBetween(log, i, j)
  {
    hide Accepted;
    RepeatDistance(log, i, j);
    forall a | j - NUM_ENTRIES <= a < j ensures log[a] != log[j] {
      if log[a] == log[j] { RepeatDistance(log, a, j); }
    }
    forall a, b | j - NUM_ENTRIES <= a < b < j ensures log[a] != log[b] {
      if log[a] == log[b] { RepeatDistance(log, a, b); }
    }
  }
}
