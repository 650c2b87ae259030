/**
 * Two helpers from the repository's examples: `dedup`, which keeps one event per key,
 * and `assert_no_overlap`, which checks that two pages share no key.
 */
module Examples {

  datatype Event<K, V> = Event(key: K, ts: int, value: V)

  /** The set of keys of a sequence of events. */
  function KeysOf<K, V>(events: seq<Event<K, V>>): set<K> {
    set i | 0 <= i < |events| :: events[i].key
  }

  /**
   * The keys in the order they first occur: the order of a Python dict that is assigned
   * each event's key in turn, since reassigning a key does not move it.
   */
  function FirstKeys<K(==), V>(events: seq<Event<K, V>>): seq<K> {
    if events == [] then []
    else
      var keys := FirstKeys(events[..|events| - 1]);
      var k := events[|events| - 1].key;
      if k in keys then keys else keys + [k]
  }

  /**
   * The index of the event the loop of `dedup` holds for key k once it has seen all of
   * `events`, or -1 when k does not occur: an event replaces the held one only when its
   * ts is strictly greater.
   */
  function BestIndex<K(==), V>(events: seq<Event<K, V>>, k: K): (j: int)
    ensures -1 <= j < |events|
    ensures j >= 0 ==> events[j].key == k
  {
    if events == [] then -1
    else
      var j := BestIndex(events[..|events| - 1], k);
      var e := events[|events| - 1];
      if e.key == k && (j < 0 || e.ts > events[j].ts) then |events| - 1 else j
  }

  /**
   * BestIndex picks, among the events with key k, the first one whose ts is maximal:
   * no event with key k has a greater ts, and every earlier one has a smaller ts.
   */
  lemma {:induction false} BestIndexIsFirstMaximal<K, V>(events: seq<Event<K, V>>, k: K)
    ensures BestIndex(events, k) == -1 <==> k !in KeysOf(events)
    ensures var j := BestIndex(events, k);
      j >= 0 ==>
        && (forall i :: 0 <= i < |events| && events[i].key == k ==> events[i].ts <= events[j].ts)
        && (forall i :: 0 <= i < j && events[i].key == k ==> events[i].ts < events[j].ts)
  {
    if events != [] {
      var n := |events| - 1;
      var prefix := events[..n];
      BestIndexIsFirstMaximal(prefix, k);
      KeysOfSnoc(events);
    }
  }

  /** The keys of `events` plus one more event. */
  lemma KeysOfSnoc<K, V>(events: seq<Event<K, V>>)
    requires events != []
    ensures KeysOf(events) == KeysOf(events[..|events| - 1]) + {events[|events| - 1].key}
  {
    var prefix := events[..|events| - 1];
    assert forall i :: 0 <= i < |prefix| ==> prefix[i] == events[i];
  }

  /** FirstKeys lists the keys of `events` and nothing else. */
  lemma {:induction false} FirstKeysMembers<K, V>(events: seq<Event<K, V>>)
    ensures forall j :: 0 <= j < |FirstKeys(events)| ==> FirstKeys(events)[j] in KeysOf(events)
    ensures forall k :: k in KeysOf(events) ==> k in FirstKeys(events)
  {
    if events != [] {
      var prefix := events[..|events| - 1];
      FirstKeysMembers(prefix);
      KeysOfSnoc(events);
      var keys := FirstKeys(events);
      var old_keys := FirstKeys(prefix);
      forall j | 0 <= j < |keys| ensures keys[j] in KeysOf(events) {
        if j < |old_keys| {
          assert keys[j] == old_keys[j];
        }
      }
    }
  }

  /** FirstKeys lists no key twice. */
  lemma {:induction false} FirstKeysDistinct<K, V>(events: seq<Event<K, V>>)
    ensures forall a, b :: 0 <= a < b < |FirstKeys(events)| ==> FirstKeys(events)[a] != FirstKeys(events)[b]
  {
    if events != [] {
      var prefix := events[..|events| - 1];
      FirstKeysDistinct(prefix);
      var keys := FirstKeys(events);
      var old_keys := FirstKeys(prefix);
      forall a, b | 0 <= a < b < |keys| ensures keys[a] != keys[b] {
        assert keys[a] == old_keys[a];
        if b == |old_keys| {
          assert keys[a] in old_keys;
        } else {
          assert keys[b] == old_keys[b];
        }
      }
    }
  }

  /** A key listed before another occurs in `events` before any occurrence of the other. */
  lemma {:induction false} FirstKeysOrder<K, V>(events: seq<Event<K, V>>)
    ensures forall a, b, i ::
      0 <= a < b < |FirstKeys(events)| && 0 <= i < |events| && events[i].key == FirstKeys(events)[b] ==>
        FirstKeys(events)[a] in KeysOf(events[..i])
  {
    if events != [] {
      var n := |events| - 1;
      var prefix := events[..n];
      FirstKeysOrder(prefix);
      FirstKeysMembers(prefix);
      var keys := FirstKeys(events);
      var old_keys := FirstKeys(prefix);
      assert keys == if events[n].key in old_keys then old_keys else old_keys + [events[n].key];
      forall a, b, i | 0 <= a < b < |keys| && 0 <= i < |events| && events[i].key == keys[b]
        ensures keys[a] in KeysOf(events[..i])
      {
        assert a < |old_keys| && keys[a] == old_keys[a];
        if i < n {
          assert prefix[i] == events[i];
          assert events[i].key in KeysOf(prefix);
          assert keys[b] in old_keys;
          assert b < |old_keys| && keys[b] == old_keys[b];
          assert old_keys[a] in KeysOf(prefix[..i]);
          assert events[..i] == prefix[..i];
        } else {
          assert old_keys[a] in KeysOf(prefix);
          assert events[..i] == prefix;
        }
      }
    }
  }

  /** FirstKeys lists every key of `events` exactly once, in order of first occurrence. */
  lemma FirstKeysCharacterised<K, V>(events: seq<Event<K, V>>)
    ensures var keys := FirstKeys(events);
      && (forall j :: 0 <= j < |keys| ==> keys[j] in KeysOf(events))
      && (forall k :: k in KeysOf(events) ==> k in keys)
      && (forall a, b :: 0 <= a < b < |keys| ==> keys[a] != keys[b])
      && (forall a, b, i :: 0 <= a < b < |keys| && 0 <= i < |events| && events[i].key == keys[b] ==>
            keys[a] in KeysOf(events[..i]))
  {
    FirstKeysMembers(events);
    FirstKeysDistinct(events);
    FirstKeysOrder(events);
  }

  /** One more event: how FirstKeys and BestIndex of a prefix grow by one. */
  lemma PrefixStep<K, V>(events: seq<Event<K, V>>, i: nat)
    requires i < |events|
    ensures FirstKeys(events[..i + 1]) ==
      if events[i].key in FirstKeys(events[..i]) then FirstKeys(events[..i])
      else FirstKeys(events[..i]) + [events[i].key]
    ensures forall k ::
      var j := BestIndex(events[..i], k);
      BestIndex(events[..i + 1], k) ==
        if events[i].key == k && (j < 0 || events[i].ts > events[j].ts) then i else j
  {
    assert events[..i + 1][..i] == events[..i];
  }

  /**
   * What the loop of `dedup` holds after the first i events: `order` is the dict's key
   * order and `best` maps each key seen so far to the event BestIndex picks.
   */
  ghost predicate LoopState<K(!new), V>(events: seq<Event<K, V>>, i: nat, order: seq<K>, best: map<K, Event<K, V>>)
    requires i <= |events|
  {
    && order == FirstKeys(events[..i])
    && (forall k :: k in best <==> k in order)
    && (forall k :: k in best <==> BestIndex(events[..i], k) >= 0)
    && (forall k :: k in best ==> best[k] == events[BestIndex(events[..i], k)])
  }

  /** One turn of the loop: the event replaces the held one exactly when its key is new or its ts is greater. */
  lemma LoopStep<K(!new), V>(events: seq<Event<K, V>>, i: nat, order: seq<K>, best: map<K, Event<K, V>>)
    requires i < |events| && LoopState(events, i, order, best)
    ensures var e := events[i];
      if e.key !in best || e.ts > best[e.key].ts then
        LoopState(events, i + 1, if e.key !in best then order + [e.key] else order, best[e.key := e])
      else
        LoopState(events, i + 1, order, best)
  {
    var e := events[i];
    var pre := events[..i];
    var post := events[..i + 1];
    PrefixStep(events, i);
    var j := BestIndex(pre, e.key);
    assert e.key in best <==> j >= 0;
    assert e.key in best ==> best[e.key] == events[j];
    var replace := e.key !in best || e.ts > best[e.key].ts;
    var best' := if replace then best[e.key := e] else best;
    var order' := if replace && e.key !in best then order + [e.key] else order;
    assert order' == FirstKeys(post);
    forall k ensures k in best' <==> BestIndex(post, k) >= 0 {
      if k != e.key {
        assert BestIndex(post, k) == BestIndex(pre, k);
      }
    }
    forall k | k in best' ensures best'[k] == events[BestIndex(post, k)] {
      if k != e.key {
        assert BestIndex(post, k) == BestIndex(pre, k);
      } else if replace {
        assert BestIndex(post, k) == i;
      } else {
        assert BestIndex(post, k) == j;
      }
    }
  }

  /**
   * `dedup`: per key, the event with the greatest ts (the earliest among equals),
   * listed in the order each key first occurs. The dict `best` is the map `best` plus
   * its insertion order `order`; `list(best.values())` walks `order`.
   */
  method Dedup<K(==,!new), V>(events: seq<Event<K, V>>) returns (out: seq<Event<K, V>>)
    ensures |out| == |FirstKeys(events)|
    ensures forall j :: 0 <= j < |out| ==>
      var k := FirstKeys(events)[j];
      BestIndex(events, k) >= 0 && out[j] == events[BestIndex(events, k)]
    ensures KeysOf(out) == KeysOf(events)
    ensures forall a, b :: 0 <= a < b < |out| ==> out[a].key != out[b].key
    ensures forall j, i :: 0 <= j < |out| && 0 <= i < |events| && events[i].key == out[j].key ==>
      events[i].ts <= out[j].ts
    ensures forall j :: 0 <= j < |out| ==> out[j] in events
  {
    var order: seq<K> := [];
    var best: map<K, Event<K, V>> := map[];
    for i := 0 to |events|
      invariant LoopState(events, i, order, best)
    {
      var e := events[i];
      LoopStep(events, i, order, best);
      if e.key !in best || e.ts > best[e.key].ts {
        if e.key !in best {
          order := order + [e.key];
        }
        best := best[e.key := e];
      }
    }
    assert events[..|events|] == events;
    out := [];
    for j := 0 to |order|
      invariant |out| == j
      invariant forall m :: 0 <= m < j ==> out[m] == best[order[m]]
    {
      out := out + [best[order[j]]];
    }
    WinnersMeaning(events, out);
  }

  /** What the winners Dedup returns mean, stated without BestIndex and FirstKeys. */
  lemma WinnersMeaning<K, V>(events: seq<Event<K, V>>, out: seq<Event<K, V>>)
    requires |out| == |FirstKeys(events)|
    requires forall j :: 0 <= j < |out| ==>
      var k := FirstKeys(events)[j];
      BestIndex(events, k) >= 0 && out[j] == events[BestIndex(events, k)]
    ensures KeysOf(out) == KeysOf(events)
    ensures forall a, b :: 0 <= a < b < |out| ==> out[a].key != out[b].key
    ensures forall j, i :: 0 <= j < |out| && 0 <= i < |events| && events[i].key == out[j].key ==>
      events[i].ts <= out[j].ts
    ensures forall j :: 0 <= j < |out| ==> out[j] in events
  {
    var order := FirstKeys(events);
    FirstKeysCharacterised(events);
    forall j | 0 <= j < |out|
      ensures out[j].key == order[j] && out[j] in events
      ensures forall i :: 0 <= i < |events| && events[i].key == out[j].key ==> events[i].ts <= out[j].ts
    {
      BestIndexIsFirstMaximal(events, order[j]);
    }
    assert KeysOf(out) == KeysOf(events) by {
      forall k | k in KeysOf(events) ensures k in KeysOf(out) {
        var j :| 0 <= j < |order| && order[j] == k;
        assert out[j].key == k;
      }
    }
  }

  /** The set of `key(x)` over a page: `{x[key] for x in p}`. */
  function KeySet<T, K>(page: seq<T>, key: T -> K): set<K> {
    set i | 0 <= i < |page| :: key(page[i])
  }

  /** `assert_no_overlap(p1, p2, key)` passes exactly when this holds. */
  predicate NoOverlap<T, K(==)>(p1: seq<T>, p2: seq<T>, key: T -> K) {
    KeySet(p1, key) * KeySet(p2, key) == {}
  }

  /** Two pages do not overlap exactly when no item of the first shares its key with an item of the second. */
  lemma NoOverlapIff<T, K>(p1: seq<T>, p2: seq<T>, key: T -> K)
    ensures NoOverlap(p1, p2, key) <==>
      forall i, j :: 0 <= i < |p1| && 0 <= j < |p2| ==> key(p1[i]) != key(p2[j])
  {
    if !NoOverlap(p1, p2, key) {
      var k :| k in KeySet(p1, key) * KeySet(p2, key);
      var i :| 0 <= i < |p1| && key(p1[i]) == k;
      var j :| 0 <= j < |p2| && key(p2[j]) == k;
    } else {
      forall i, j | 0 <= i < |p1| && 0 <= j < |p2| ensures key(p1[i]) != key(p2[j]) {
        var x := key(p1[i]);
        assert x in KeySet(p1, key);
        assert x !in KeySet(p2, key) by {
          assert x !in KeySet(p1, key) * KeySet(p2, key);
        }
        assert key(p2[j]) in KeySet(p2, key);
      }
    }
  }
}
