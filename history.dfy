/** The history list both pages keep: at most `MaxHistory` entries, newest first. */
module History {
  import opened Strings

  /** `new Date().toLocaleTimeString()`, supplied by the caller. */
  type Timestamp = JsString

  /** One history row. */
  datatype Entry = Entry(original: JsString, reversed: JsString, timestamp: Timestamp)

  const MaxHistory: nat := 10

  /** What `addToHistory` does to the list: `unshift` the new entry, then `pop` once
      if the list has grown past `MaxHistory`. */
  function Push(h: seq<Entry>, e: Entry): (r: seq<Entry>)
    ensures |r| == if |h| < MaxHistory then |h| + 1 else |h|
    ensures r[0] == e
    ensures forall i :: 0 < i < |r| ==> r[i] == h[i - 1]
  {
    var u := [e] + h;
    if |u| > MaxHistory then u[..|u| - 1] else u
  }

  /** On a list within capacity, pushing stays within capacity; below capacity nothing is
      lost, and at capacity exactly the oldest entry (the last one) is evicted. */
  lemma {:induction false} PushEvictsOnlyOldest(h: seq<Entry>, e: Entry)
    requires |h| <= MaxHistory
    ensures |Push(h, e)| <= MaxHistory
    ensures |h| < MaxHistory ==> Push(h, e) == [e] + h
    ensures |h| == MaxHistory ==> Push(h, e) == [e] + h[..MaxHistory - 1]
    ensures |h| == MaxHistory ==>
              multiset(Push(h, e)) + multiset{h[MaxHistory - 1]} == multiset(h) + multiset{e}
  {
    if |h| == MaxHistory {
      assert h == h[..MaxHistory - 1] + [h[MaxHistory - 1]];
    }
  }

  /** The first `n` elements of `s`, or all of `s` when it is shorter. */
  function Take<T>(s: seq<T>, n: nat): seq<T>
  {
    if |s| <= n then s else s[..n]
  }

  lemma {:induction false} TakeAppendTake<T>(a: seq<T>, b: seq<T>, n: nat)
    ensures Take(a + Take(b, n), n) == Take(a + b, n)
  {
    if |b| > n {
      if |a| >= n {
        assert (a + b[..n])[..n] == a[..n] == (a + b)[..n];
      } else {
        assert (a + b[..n])[..n] == (a + b)[..n];
      }
    }
  }

  /** A run of `addToHistory` calls, oldest first. */
  function PushAll(h: seq<Entry>, es: seq<Entry>): seq<Entry>
    decreases |es|
  {
    if es == [] then h else PushAll(Push(h, es[0]), es[1..])
  }

  lemma {:induction false} PushIsTake(h: seq<Entry>, e: Entry)
    requires |h| <= MaxHistory
    ensures Push(h, e) == Take([e] + h, MaxHistory)
  {
  }

  lemma {:induction false} ReverseStepAppend(es: seq<Entry>, h: seq<Entry>)
    requires es != []
    ensures Reverse(es[1..]) + ([es[0]] + h) == Reverse(es) + h
  {
    var rest := Reverse(es[1..]);
    assert Reverse(es) == rest + [es[0]];
    assert rest + ([es[0]] + h) == (rest + [es[0]]) + h;
  }

  /** However many entries are committed, the list shows the newest `MaxHistory` of them
      followed by the newest of the earlier list, newest first. */
  lemma {:induction false} PushAllKeepsNewest(h: seq<Entry>, es: seq<Entry>)
    requires |h| <= MaxHistory
    ensures PushAll(h, es) == Take(Reverse(es) + h, MaxHistory)
    ensures |PushAll(h, es)| <= MaxHistory
    decreases |es|
  {
    if es != [] {
      var e := es[0];
      var pushed := Push(h, e);
      PushIsTake(h, e);
      assert PushAll(h, es) == PushAll(pushed, es[1..]);
      PushAllKeepsNewest(pushed, es[1..]);
      TakeAppendTake(Reverse(es[1..]), [e] + h, MaxHistory);
      ReverseStepAppend(es, h);
    }
  }

  /** From an empty list, after at least `MaxHistory` commits exactly the last
      `MaxHistory` remain, newest first; after eleven commits the first one is gone. */
  lemma {:induction false} NewestTenRemain(es: seq<Entry>)
    requires |es| >= MaxHistory
    ensures PushAll([], es) == Reverse(es[|es| - MaxHistory..])
  {
    PushAllKeepsNewest([], es);
    var n := |es|;
    var tail := es[n - MaxHistory..];
    var all := Reverse(es);
    assert all + [] == all;
    var taken := Take(all, MaxHistory);
    assert |taken| == MaxHistory;
    forall i | 0 <= i < MaxHistory
      ensures taken[i] == Reverse(tail)[i]
    {
      assert taken[i] == all[i] == es[n - 1 - i];
      assert Reverse(tail)[i] == tail[MaxHistory - 1 - i];
    }
  }
}
