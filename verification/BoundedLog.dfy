/** The bounded in-memory logs: a sliding window over everything ever added, paged or read
    newest first. Shared by internal/bastion/logger.go, internal/api/handlers.go and
    cmd/proxy/main.go. */
module BoundedLog {

  /** The last `limit` entries. */
  function LastOf<T>(xs: seq<T>, limit: nat): (r: seq<T>)
    ensures |r| == if |xs| > limit then limit else |xs|
  {
    if |xs| > limit then xs[|xs| - limit..] else xs
  }

  /** One `Add`: append, then cut to the limit. */
  function Appended<T>(xs: seq<T>, x: T, limit: nat): seq<T> {
    LastOf(xs + [x], limit)
  }

  function AppendedAll<T>(xs: seq<T>, more: seq<T>, limit: nat): seq<T>
    decreases |more|
  {
    if more == [] then xs else AppendedAll(Appended(xs, more[0], limit), more[1..], limit)
  }

  lemma WindowStep<T>(past: seq<T>, x: T, limit: nat)
    ensures Appended(LastOf(past, limit), x, limit) == LastOf(past + [x], limit)
  {
  }

  lemma {:induction false} WindowFrom<T>(past: seq<T>, more: seq<T>, limit: nat)
    ensures AppendedAll(LastOf(past, limit), more, limit) == LastOf(past + more, limit)
    decreases |more|
  {
    if more == [] {
      assert past + more == past;
    } else {
      WindowStep(past, more[0], limit);
      WindowFrom(past + [more[0]], more[1..], limit);
      assert past + [more[0]] + more[1..] == past + more;
    }
  }

  /** After any number of additions to an empty log it holds the last `limit` of them. */
  lemma WindowIsLast<T>(all: seq<T>, limit: nat)
    ensures AppendedAll([], all, limit) == LastOf(all, limit)
  {
    WindowFrom([], all, limit);
    assert [] + all == all;
  }

  /** The page that a listing returns: a negative offset is 0, a limit of 0 or less is all. */
  function Page<T>(xs: seq<T>, offset: int, limit: int): seq<T> {
    var start := Clamp(offset, |xs|);
    xs[start..Clamp(start + if limit <= 0 then |xs| else limit, |xs|)]
  }

  function Clamp(n: int, total: nat): nat {
    if n < 0 then 0 else if n > total then total else n
  }

  /** Consecutive pages from `offset` on, until one starts past the end. */
  function PagesFrom<T>(xs: seq<T>, offset: nat, size: nat): seq<T>
    requires size > 0
    decreases |xs| - offset
  {
    if offset >= |xs| then [] else Page(xs, offset, size) + PagesFrom(xs, offset + size, size)
  }

  lemma {:induction false} PagesRest<T>(xs: seq<T>, offset: nat, size: nat)
    requires size > 0 && offset <= |xs|
    ensures PagesFrom(xs, offset, size) == xs[offset..]
    decreases |xs| - offset
  {
    if offset < |xs| {
      if offset + size <= |xs| {
        PagesRest(xs, offset + size, size);
        assert Page(xs, offset, size) == xs[offset..offset + size];
      } else {
        assert Page(xs, offset, size) == xs[offset..];
      }
    }
  }

  /** Pages of any positive size concatenate to exactly the whole log. */
  lemma PagesCoverLog<T>(xs: seq<T>, size: nat)
    requires size > 0
    ensures PagesFrom(xs, 0, size) == xs
  {
    PagesRest(xs, 0, size);
  }

  /** A page outside the ordinary: a negative offset is the beginning, a limit of 0 or less
      takes all the rest, and past the end there is nothing. */
  lemma PageOutOfRange<T>(xs: seq<T>, offset: int, limit: int)
    ensures offset < 0 ==> Page(xs, offset, limit) == Page(xs, 0, limit)
    ensures 0 <= offset <= |xs| && limit <= 0 ==> Page(xs, offset, limit) == xs[offset..]
    ensures offset >= |xs| ==> Page(xs, offset, limit) == []
  {
  }

  /** The most recent `limit` entries, newest first; 0 or less, or too many, means all. */
  function Newest<T>(xs: seq<T>, limit: int): seq<T> {
    var n := if limit <= 0 || limit > |xs| then |xs| else limit;
    seq(n, i requires 0 <= i < n => xs[|xs| - 1 - i])
  }

  function Reversed<T>(xs: seq<T>): seq<T> {
    if xs == [] then [] else Reversed(xs[1..]) + [xs[0]]
  }

  lemma {:induction false} ReversedAt<T>(xs: seq<T>, i: nat)
    requires i < |xs|
    ensures |Reversed(xs)| == |xs| && Reversed(xs)[i] == xs[|xs| - 1 - i]
  {
    if |xs| > 1 {
      ReversedAt(xs[1..], if i < |xs| - 1 then i else 0);
    }
  }

  lemma NewestReverses<T>(xs: seq<T>, k: int)
    ensures Newest(xs, k) == Reversed(LastOf(xs, if 0 < k then k else |xs|))
  {
    var r, n := LastOf(xs, if 0 < k then k else |xs|), Newest(xs, k);
    assert |n| == |r| && forall i :: 0 <= i < |n| ==> n[i] == r[|r| - 1 - i];
    if r == [] {
      assert n == [];
    } else {
      forall i | 0 <= i < |r|
        ensures |Reversed(r)| == |r| && Reversed(r)[i] == n[i]
      {
        ReversedAt(r, i);
      }
      ReversedAt(r, 0);
    }
  }

  lemma LastOfLast<T>(xs: seq<T>, limit: nat, k: int)
    ensures var kept := LastOf(xs, limit);
            LastOf(kept, if 0 < k then k else |kept|) == LastOf(xs, if 0 < k <= limit then k else limit)
  {
  }

  /** Reading `k` entries of a bounded log gives the last `k` entries of the full history, as
      far as kept, reversed; 0 or less reads all that is kept. */
  lemma NewestIsReversedHistory<T>(all: seq<T>, limit: nat, k: int)
    ensures Newest(AppendedAll([], all, limit), k) == Reversed(LastOf(all, if 0 < k <= limit then k else limit))
  {
    WindowIsLast(all, limit);
    NewestReverses(LastOf(all, limit), k);
    LastOfLast(all, limit, k);
  }

  datatype TrafficEntry = TrafficEntry(timestamp: int, sourceIP: string, agentID: string, domain: string, action: string)

  /** `LogStore` of cmd/proxy/main.go. */
  class TrafficLog {
    var entries: seq<TrafficEntry>
    const maxSize: nat

    constructor (size: nat)
      ensures entries == [] && maxSize == size
    {
      entries, maxSize := [], size;
    }

    method Add(entry: TrafficEntry)
      modifies this
      ensures entries == Appended(old(entries), entry, maxSize)
    {
      entries := entries + [entry];
      if |entries| > maxSize {
        entries := entries[|entries| - maxSize..];
      }
    }

    method Get(count: int) returns (result: seq<TrafficEntry>)
      ensures result == Newest(entries, count)
    {
      var limit := count;
      if limit <= 0 || limit > |entries| {
        limit := |entries|;
      }
      var buffer := new TrafficEntry[limit];
      for i := 0 to limit
        invariant forall k :: 0 <= k < i ==> buffer[k] == entries[|entries| - 1 - k]
      {
        buffer[i] := entries[|entries| - 1 - i];
      }
      result := buffer[..];
    }
  }
}
