/** The ring of recent debug output (src/debug_cmd.cc:27-91). */
module DebugRings {
  import opened Bytes

  /** The last `n` bytes of everything written. */
  function Last(log: seq<byte>, n: nat): seq<byte> {
    if |log| <= n then log else log[|log| - n..]
  }

  /** The place of the byte written `k` bytes before the newest one. */
  function Place(size: nat, end: nat, k: nat): nat
    requires end < size && k < size
  {
    if k < end then end - 1 - k else end - 1 - k + size
  }

  /** The ring holds the last bytes of `log`. */
  ghost predicate Holds(h: seq<byte>, end: nat, count: nat, log: seq<byte>) {
    && end < |h| && count <= |h| && count <= |log|
    && forall k :: 0 <= k < count ==> h[Place(|h|, end, k)] == log[|log| - 1 - k]
  }

  /** The ring after storing at most one ring size of bytes. */
  function Stored(h: seq<byte>, end: nat, d: seq<byte>): (r: seq<byte>)
    requires end < |h| && |d| <= |h|
    ensures |r| == |h|
  {
    var n := |d|;
    if end + n <= |h| then h[..end] + d + h[end + n..]
    else
      var w2 := end + n - |h|;
      d[n - w2..] + h[w2..end] + d[..n - w2]
  }

  lemma StoredAt(h: seq<byte>, end: nat, d: seq<byte>, end': nat, k: nat)
    requires end < |h| && |d| <= |h| && k < |h|
    requires end' == if end + |d| < |h| then end + |d| else end + |d| - |h|
    ensures Stored(h, end, d)[Place(|h|, end', k)] ==
            if k < |d| then d[|d| - 1 - k] else h[Place(|h|, end, k - |d|)]
  {
    hide Stored;
    var p := Place(|h|, end', k);
    if end + |d| <= |h| {
      StoredStraight(h, end, d, p);
    } else {
      StoredWrapped(h, end, d, p);
    }
  }

  lemma StoredStraight(h: seq<byte>, end: nat, d: seq<byte>, p: nat)
    requires end < |h| && end + |d| <= |h| && p < |h|
    ensures Stored(h, end, d)[p] == if end <= p < end + |d| then d[p - end] else h[p]
  {
  }

  lemma StoredWrapped(h: seq<byte>, end: nat, d: seq<byte>, p: nat)
    requires end < |h| && |d| <= |h| && end + |d| > |h| && p < |h|
    ensures Stored(h, end, d)[p] ==
      if p >= end then d[p - end] else if p < end + |d| - |h| then d[p + |h| - end] else h[p]
  {
  }

  /** Storing keeps the ring the record of everything written. */
  lemma StoredHolds(h: seq<byte>, end: nat, count: nat, log: seq<byte>, d: seq<byte>, end': nat, count': nat)
    requires Holds(h, end, count, log) && |d| <= |h|
    requires end' == if end + |d| < |h| then end + |d| else end + |d| - |h|
    requires count' == if count + |d| < |h| then count + |d| else |h|
    ensures Holds(Stored(h, end, d), end', count', log + d)
  {
    var r, all := Stored(h, end, d), log + d;
    forall k | 0 <= k < count' ensures r[Place(|r|, end', k)] == all[|all| - 1 - k] {
      StoredAt(h, end, d, end', k);
    }
  }

  /** The bytes `dumpHistory` picks out. */
  function Picked(h: seq<byte>, end: nat, s: nat): (r: seq<byte>)
    requires end < |h| && s <= |h|
    ensures |r| == s
  {
    if s <= end then h[end - s..end] else h[end - s + |h|..] + h[..end]
  }

  lemma PickedParts(h: seq<byte>, end: nat, s: nat)
    requires end < |h| && s <= |h|
    ensures s <= end ==> Picked(h, end, s) == h[end - s..end - s + s]
    ensures s > end ==> Picked(h, end, s) == h[end - s + |h|..end - s + |h| + (s - end)] + h[..end]
  {
  }

  lemma PickedLast(h: seq<byte>, end: nat, count: nat, log: seq<byte>, s: nat)
    requires Holds(h, end, count, log) && s <= count
    ensures Picked(h, end, s) == Last(log, s)
  {
    hide Picked, Last, Place;
    var r, l := Picked(h, end, s), Last(log, s);
    LastSize(log, s);
    forall i | 0 <= i < s ensures r[i] == l[i] {
      PickedAt(h, end, s, i);
      LastAt(log, s, i);
    }
  }

  lemma PickedAt(h: seq<byte>, end: nat, s: nat, i: nat)
    requires end < |h| && i < s <= |h|
    ensures Picked(h, end, s)[i] == h[Place(|h|, end, s - 1 - i)]
  {
  }

  lemma LastSize(log: seq<byte>, s: nat)
    requires s <= |log|
    ensures |Last(log, s)| == s
  {
  }

  lemma LastAt(log: seq<byte>, s: nat, i: nat)
    requires i < s <= |log|
    ensures |Last(log, s)| == s && Last(log, s)[i] == log[|log| - 1 - (s - 1 - i)]
  {
  }

  class OutputRedirector {
    const history: array<byte>
    var bytesInHistory: nat
    var histEnd: nat
    /** Everything ever written. */
    ghost var log: seq<byte>

    ghost predicate Valid()
      reads this, history
    {
      && Holds(history[..], histEnd, bytesInHistory, log)
      && (bytesInHistory < history.Length ==> bytesInHistory == |log|)
    }

    constructor (histSize: nat)
      requires histSize > 0
      ensures Valid() && fresh(history) && history.Length == histSize && log == []
    {
      history := new byte[histSize];
      bytesInHistory, histEnd, log := 0, 0, [];
    }

    /** memcpy into the ring. */
    method Copy(at: nat, data: seq<byte>)
      requires at + |data| <= history.Length
      modifies history
      ensures history[..] == old(history[..at]) + data + old(history[at + |data|..])
    {
      ghost var was := history[..];
      for i := 0 to |data|
        invariant history[..] == was[..at] + data[..i] + was[at + i..]
      {
        ghost var h := history[..];
        history[at + i] := data[i];
        assert history[..] == h[at + i := data[i]];
        assert data[..i + 1] == data[..i] + [data[i]];
      }
      assert data[..|data|] == data;
    }

    /** One copy, or two when the data passes the end of the ring. */
    method Put(d: seq<byte>)
      requires histEnd < history.Length && |d| <= history.Length
      modifies history
      ensures history[..] == Stored(old(history[..]), histEnd, d)
    {
      hide Stored;
      var num := |d|;
      var w2 := histEnd + num - history.Length;
      TwoCopies(history[..], histEnd, d);
      if w2 <= 0 {
        Copy(histEnd, d);
      } else {
        Copy(histEnd, d[..num - w2]);
        Copy(0, d[num - w2..]);
      }
    }

    /** storeInHistory, for writes of any length. */
    method StoreInHistory(data: seq<byte>)
      requires Valid()
      modifies this`bytesInHistory, this`histEnd, this`log, history
      ensures Valid() && log == old(log) + data
    {
      hide Holds, Stored;
      var d := data;
      var num, size := |data|, history.Length;
      ghost var h, skipped := history[..], [];
      if num > size {
        d := data[num - size..];
        skipped := data[..num - size];
        num := size;
      }
      assert data == skipped + d;
      InRange(h, histEnd, bytesInHistory, log);
      Put(d);
      ghost var count, end := bytesInHistory, histEnd;
      bytesInHistory := bytesInHistory + num;
      if bytesInHistory > size { bytesInHistory := size; }
      Wraps(histEnd + num, size);
      histEnd := histEnd + num;
      histEnd := histEnd % size;
      StoredHolds(h, end, count, log, d, histEnd, bytesInHistory);
      Longer(history[..], histEnd, bytesInHistory, log, skipped, d);
      log := log + data;
    }

    /** dumpHistory: the last min(s, histSize, total) bytes, in order. */
    method DumpHistory(s: int) returns (out: seq<byte>)
      requires Valid() && s >= -1
      ensures out == Last(log, if s == -1 || s > history.Length then history.Length else s)
    {
      hide Holds, Last, Picked;
      var h, size := history[..], history.Length;
      var n := if s == -1 then size else s;
      if n > bytesInHistory { n := bytesInHistory; }
      InRange(h, histEnd, bytesInHistory, log);
      PickedLast(h, histEnd, bytesInHistory, log, n);
      Whole(log, n, if s == -1 || s > size then size else s);
      PickedParts(h, histEnd, n);
      var dumpStart := histEnd - n;
      if dumpStart < 0 {
        var w1 := -dumpStart;
        dumpStart := dumpStart + size;
        out := h[dumpStart..dumpStart + w1];
        out := out + h[..histEnd];
      } else {
        out := h[dumpStart..dumpStart + n];
      }
    }
  }

  /** Any writes, then a dump: the tail of all of them put together. */
  method WritesThenDump(r: OutputRedirector, writes: seq<seq<byte>>, s: int) returns (out: seq<byte>)
    requires r.Valid() && r.log == [] && s >= -1
    modifies r, r.history
    ensures r.Valid() && out == Last(Joined(writes), if s == -1 || s > r.history.Length then r.history.Length else s)
  {
    for i := 0 to |writes|
      invariant r.Valid() && r.log == Joined(writes[..i])
    {
      assert writes[..i + 1][..i] == writes[..i];
      r.StoreInHistory(writes[i]);
    }
    assert writes[..|writes|] == writes;
    out := r.DumpHistory(s);
  }

  function Joined(w: seq<seq<byte>>): seq<byte> {
    if w == [] then [] else Joined(w[..|w| - 1]) + w[|w| - 1]
  }

  lemma Whole(log: seq<byte>, n: nat, m: nat)
    requires n == m || (|log| == n && n <= m)
    ensures Last(log, n) == Last(log, m)
  {
  }

  lemma Wraps(a: nat, size: nat)
    requires a < 2 * size
    ensures a % size == if a < size then a else a - size
  {
    if a >= size { assert a == size + (a - size); }
  }

  lemma InRange(h: seq<byte>, end: nat, count: nat, log: seq<byte>)
    requires Holds(h, end, count, log)
    ensures end < |h| && count <= |h| && count <= |log|
  {
  }

  /** `Stored` is what the one or two copies leave. */
  lemma TwoCopies(h: seq<byte>, end: nat, d: seq<byte>)
    requires end < |h| && |d| <= |h|
    ensures end + |d| <= |h| ==> Stored(h, end, d) == h[..end] + d + h[end + |d|..]
    ensures end + |d| > |h| ==>
      var w2 := end + |d| - |h|;
      var first := h[..end] + d[..|d| - w2] + h[end + (|d| - w2)..];
      Stored(h, end, d) == first[..0] + d[|d| - w2..] + first[0 + |d[|d| - w2..]|..]
  {
  }

  /** Bytes that were skipped because newer ones fill the ring do not matter. */
  lemma Longer(h: seq<byte>, end: nat, count: nat, log: seq<byte>, skipped: seq<byte>, d: seq<byte>)
    requires Holds(h, end, count, log + d) && (skipped == [] || count <= |d|)
    ensures Holds(h, end, count, log + (skipped + d))
  {
    if skipped == [] {
      assert skipped + d == d;
    }
  }
}
