/** The source abstraction (`sources/base.py`): a storefront supplies a name,
    how to key an item, when a key is eligible, and how to render an item; the
    shared `poll` walks the fetched items, records every eligible key with
    today's day, and yields its notification right after the write. */
module SourceBase {
  import opened Basics
  import opened NotificationStore

  /** What is pushed to the user; both URLs default to empty. */
  datatype Notification = Notification(message: string, imageUrl: string := "", storeUrl: string := "")

  /** One storefront adapter. `shouldNotify` sees the store and the key only;
      an adapter that needs today's date captures it. */
  datatype Source<!T> = Source(
    name: string,
    itemKey: T -> string,
    shouldNotify: (Store, string) -> bool,
    toNotification: T -> Notification)

  /** What a poll does, in order: a store write or a yielded notification. */
  datatype Event =
    | Saved(source: string, key: string, date: Day)
    | Yielded(note: Notification)

  datatype PollState = PollState(store: Store, trace: seq<Event>)

  /** `save_notified`: upserts `(name, key)` with today's day. */
  function SaveNotified<T>(src: Source<T>, store: Store, key: string, today: Day): (r: Store)
    ensures Get(r, src.name, key) == Some(today)
    ensures forall s, k :: (s, k) != (src.name, key) ==> Get(r, s, k) == Get(store, s, k)
  {
    Set(store, src.name, key, today)
  }

  /** One turn of the `poll` loop: key the item, ask the adapter, and if it is
      eligible record the key before yielding the notification. */
  function PollStep<T>(src: Source<T>, st: PollState, item: T, today: Day): PollState {
    var key := src.itemKey(item);
    if src.shouldNotify(st.store, key) then
      PollState(
        SaveNotified(src, st.store, key, today),
        st.trace + [Saved(src.name, key, today), Yielded(src.toNotification(item))])
    else st
  }

  /** `poll` over the fetched items, as the state after the last one. So the
      store an item is judged against is `Poll(src, items[..i], ...).store`. */
  function Poll<T>(src: Source<T>, items: seq<T>, store: Store, today: Day): (r: PollState)
    ensures |r.trace| <= 2 * |items|
    ensures store.Keys <= r.store.Keys
  {
    if |items| == 0 then PollState(store, [])
    else PollStep(src, Poll(src, items[..|items| - 1], store, today), items[|items| - 1], today)
  }

  /** The notifications a trace yields, in order. */
  function Yields(trace: seq<Event>): (notes: seq<Notification>)
    ensures |notes| <= |trace|
  {
    FilterMap(trace, (e: Event) => if e.Yielded? then Some(e.note) else None)
  }

  /** Positions of the items a poll notifies, in order. */
  ghost function NotifiedPositions<T>(src: Source<T>, items: seq<T>, store: Store, today: Day): seq<int> {
    if |items| == 0 then []
    else
      var n := |items| - 1;
      var prev := NotifiedPositions(src, items[..n], store, today);
      if src.shouldNotify(Poll(src, items[..n], store, today).store, src.itemKey(items[n])) then prev + [n] else prev
  }

  lemma {:induction false} NotifiedPositionsIncreasing<T>(src: Source<T>, items: seq<T>, store: Store, today: Day)
    ensures Increasing(NotifiedPositions(src, items, store, today), |items|)
  {
    if |items| > 0 {
      NotifiedPositionsIncreasing(src, items[..|items| - 1], store, today);
    }
  }

  lemma {:induction false} NotifiedPositionsPairs<T>(src: Source<T>, items: seq<T>, store: Store, today: Day)
    ensures Increasing(NotifiedPositions(src, items, store, today), |items|)
    ensures var idx := NotifiedPositions(src, items, store, today);
      var tr := Poll(src, items, store, today).trace;
      && |tr| == 2 * |idx|
      && forall k :: 0 <= k < |idx| ==>
        && tr[2 * k] == Saved(src.name, src.itemKey(items[idx[k]]), today)
        && tr[2 * k + 1] == Yielded(src.toNotification(items[idx[k]]))
  {
    NotifiedPositionsIncreasing(src, items, store, today);
    if |items| > 0 {
      var n := |items| - 1;
      var init := items[..n];
      NotifiedPositionsPairs(src, init, store, today);
      NotifiedPositionsIncreasing(src, init, store, today);
      var prevIdx := NotifiedPositions(src, init, store, today);
      var prev := Poll(src, init, store, today);
      var idx := NotifiedPositions(src, items, store, today);
      var tr := Poll(src, items, store, today).trace;
      forall k | 0 <= k < |prevIdx|
        ensures tr[2 * k] == Saved(src.name, src.itemKey(items[idx[k]]), today)
        ensures tr[2 * k + 1] == Yielded(src.toNotification(items[idx[k]]))
      {
        assert idx[k] == prevIdx[k];
        assert init[prevIdx[k]] == items[idx[k]];
      }
    }
  }

  lemma {:induction false} NotifiedPositionsIff<T>(src: Source<T>, items: seq<T>, store: Store, today: Day)
    ensures var idx := NotifiedPositions(src, items, store, today);
      forall i :: 0 <= i < |items| ==>
        (i in idx <==> src.shouldNotify(Poll(src, items[..i], store, today).store, src.itemKey(items[i])))
  {
    if |items| > 0 {
      var n := |items| - 1;
      var init := items[..n];
      NotifiedPositionsIff(src, init, store, today);
      NotifiedPositionsIncreasing(src, init, store, today);
      var prevIdx := NotifiedPositions(src, init, store, today);
      var idx := NotifiedPositions(src, items, store, today);
      forall i | 0 <= i < |items|
        ensures i in idx <==> src.shouldNotify(Poll(src, items[..i], store, today).store, src.itemKey(items[i]))
      {
        if i < n {
          assert init[i] == items[i] && init[..i] == items[..i];
          assert i in idx <==> i in prevIdx;
        } else {
          assert items[..i] == init;
          assert n !in prevIdx;
        }
      }
    }
  }

  /** The heart of `poll`. Its events come in pairs, one pair per notified item,
      the items picked out by an increasing list of positions (so notifications
      follow fetch order and there are at most as many as items); each pair is
      the write of that item's key with today's day followed by that item's
      notification (write-before-emit); and an item is notified iff the adapter
      called it eligible against the store as it stood when the item was
      reached. */
  lemma PollSelection<T>(src: Source<T>, items: seq<T>, store: Store, today: Day) returns (idx: seq<int>)
    ensures Increasing(idx, |items|)
    ensures var tr := Poll(src, items, store, today).trace;
      && |tr| == 2 * |idx|
      && forall k :: 0 <= k < |idx| ==>
        && tr[2 * k] == Saved(src.name, src.itemKey(items[idx[k]]), today)
        && tr[2 * k + 1] == Yielded(src.toNotification(items[idx[k]]))
    ensures forall i :: 0 <= i < |items| ==>
      (i in idx <==> src.shouldNotify(Poll(src, items[..i], store, today).store, src.itemKey(items[i])))
  {
    idx := NotifiedPositions(src, items, store, today);
    NotifiedPositionsIncreasing(src, items, store, today);
    NotifiedPositionsPairs(src, items, store, today);
    NotifiedPositionsIff(src, items, store, today);
  }

  /** The shape `poll` gives a trace: writes by `name` dated today at even
      positions, notifications at odd ones. */
  ghost predicate Alternates(trace: seq<Event>, name: string, today: Day) {
    && |trace| % 2 == 0
    && forall i :: 0 <= i < |trace| ==>
      if i % 2 == 0 then trace[i].Saved? && trace[i].source == name && trace[i].date == today
      else trace[i].Yielded?
  }

  /** Event by event, a poll's trace alternates between this adapter's writes
      dated today and notifications. */
  lemma PollTraceShape<T>(src: Source<T>, items: seq<T>, store: Store, today: Day)
    ensures Alternates(Poll(src, items, store, today).trace, src.name, today)
  {
    var idx := PollSelection(src, items, store, today);
    var tr := Poll(src, items, store, today).trace;
    forall i | 0 <= i < |tr|
      ensures if i % 2 == 0 then tr[i].Saved? && tr[i].source == src.name && tr[i].date == today
              else tr[i].Yielded?
    {
      var k := i / 2;
      assert i == 2 * k || i == 2 * k + 1;
    }
  }

  /** What `poll` changes in the store: a pair gains or changes its record only
      if the poll wrote it, the written pairs all belong to this adapter and
      now hold today's day, and every other record is untouched. */
  lemma {:induction false} PollFrame<T>(src: Source<T>, items: seq<T>, store: Store, today: Day)
    ensures var r := Poll(src, items, store, today);
      && (forall e :: e in r.trace && e.Saved? ==> e.source == src.name && e.date == today)
      && (forall p :: p in r.store <==> p in store || Saved(p.0, p.1, today) in r.trace)
      && (forall p :: p in r.store ==>
            r.store[p] == if Saved(p.0, p.1, today) in r.trace then today else store[p])
  {
    if |items| > 0 {
      var n := |items| - 1;
      PollFrame(src, items[..n], store, today);
    }
  }

  /** Records never move backwards: when no record is dated after today, a
      poll keeps every record and only moves days forward, up to today. */
  lemma PollDatesNondecreasing<T>(src: Source<T>, items: seq<T>, store: Store, today: Day)
    requires forall p :: p in store ==> store[p] <= today
    ensures var r := Poll(src, items, store, today);
      && (forall p :: p in store ==> p in r.store && store[p] <= r.store[p])
      && (forall p :: p in r.store ==> r.store[p] <= today)
  {
    PollFrame(src, items, store, today);
  }

  /** The adapter refuses a key its store records as notified today. */
  ghost predicate SuppressesSameDay<T>(src: Source<T>, today: Day) {
    forall s: Store, k: string :: (src.name, k) in s && s[(src.name, k)] == today ==> !src.shouldNotify(s, k)
  }

  /** For such an adapter a poll writes, and so notifies, each key at most once,
      however often the key recurs among the fetched items. */
  lemma {:induction false} PollSavesEachKeyOnce<T>(src: Source<T>, items: seq<T>, store: Store, today: Day)
    requires SuppressesSameDay(src, today)
    ensures var tr := Poll(src, items, store, today).trace;
      forall i, j :: 0 <= i < j < |tr| && tr[i].Saved? && tr[j].Saved? ==> tr[i].key != tr[j].key
  {
    if |items| > 0 {
      var n := |items| - 1;
      var prev := Poll(src, items[..n], store, today);
      PollSavesEachKeyOnce(src, items[..n], store, today);
      PollFrame(src, items[..n], store, today);
      var key := src.itemKey(items[n]);
      if src.shouldNotify(prev.store, key) {
        var tr := Poll(src, items, store, today).trace;
        var m := |prev.trace|;
        assert tr == prev.trace + [Saved(src.name, key, today), Yielded(src.toNotification(items[n]))];
        forall i | 0 <= i < m && tr[i].Saved?
          ensures tr[i].key != key
        {
          assert tr[i] == prev.trace[i];
          assert tr[i] in prev.trace;
          assert tr[i] == Saved(src.name, tr[i].key, today);
          assert (src.name, tr[i].key) in prev.store && prev.store[(src.name, tr[i].key)] == today;
        }
      }
    }
  }
}
