/** One iteration of the notifier loop (`notifier.py`): build the enabled
    sources, Epic first, poll each against the store, and push every yielded
    notification to the ntfy topic as it is yielded. */
module Notifier {
  import opened Basics
  import opened Models
  import opened NotificationStore
  import opened SourceBase
  import SteamSource
  import EpicSource
  import Text

  /** The HTTP POST `send_ntfy` makes: the topic URL, the message as body,
      and optional headers. */
  datatype Request = Request(url: string, body: string, headers: Option<map<string, string>>)

  const AttachHeader: string := "Attach"

  /** `send_ntfy`: the image, if any, travels in an `Attach` header. */
  function SendNtfy(topic: string, message: string, imageUrl: string := ""): (r: Request)
    ensures r.url == topic && r.body == message
    ensures r.headers.Some? <==> imageUrl != ""
    ensures r.headers.Some? ==> AttachHeader in r.headers.value && r.headers.value[AttachHeader] == imageUrl
    ensures r.headers.Some? ==> r.headers.value.Keys == {AttachHeader}
  {
    Request(topic, message, if imageUrl != "" then Some(map[AttachHeader := imageUrl]) else None)
  }

  datatype SourceKind = EpicKind | SteamKind

  /** The sources the loop builds for this iteration. */
  function ActiveSources(notifyEpic: bool, steamGameIds: seq<int>): (kinds: seq<SourceKind>)
    ensures EpicKind in kinds <==> notifyEpic
    ensures SteamKind in kinds <==> |steamGameIds| > 0
    ensures forall i, j :: 0 <= i < j < |kinds| ==> kinds[i] == EpicKind && kinds[j] == SteamKind
  {
    (if notifyEpic then [EpicKind] else []) + (if |steamGameIds| > 0 then [SteamKind] else [])
  }

  /** Polls one freshly built source. The fetched Epic games and the Steam
      price lookup are this iteration's inputs. */
  function PollSource(
    kind: SourceKind, store: Store, today: Day,
    epicGames: seq<EpicGame>, steamGameIds: seq<int>, steamSale: int -> Option<SteamSaleHit>): PollState
  {
    match kind
    case EpicKind => Poll(EpicSource.Adapter(), epicGames, store, today)
    case SteamKind => Poll(SteamSource.Adapter(today), SteamSource.Fetch(steamGameIds, steamSale), store, today)
  }

  /** What the loop does, in order: a store write, or a push. */
  datatype Effect =
    | Recorded(source: string, key: string, date: Day)
    | Posted(request: Request)

  /** A write passes through; a yielded notification is pushed at once with
      its message and image (its store link is dropped). */
  function Dispatch(topic: string, e: Event): Effect {
    match e
    case Saved(s, k, d) => Recorded(s, k, d)
    case Yielded(n) => Posted(SendNtfy(topic, n.message, n.imageUrl))
  }

  function DispatchAll(topic: string, trace: seq<Event>): (effects: seq<Effect>)
    ensures |effects| == |trace|
    ensures forall i :: 0 <= i < |trace| ==> effects[i] == Dispatch(topic, trace[i])
  {
    seq(|trace|, i requires 0 <= i < |trace| => Dispatch(topic, trace[i]))
  }

  datatype CycleResult = CycleResult(store: Store, effects: seq<Effect>)

  /** `for source in sources: for notification in source.poll(): send`. */
  function RunSources(
    topic: string, kinds: seq<SourceKind>, store: Store, today: Day,
    epicGames: seq<EpicGame>, steamGameIds: seq<int>, steamSale: int -> Option<SteamSaleHit>): CycleResult
    decreases |kinds|
  {
    if |kinds| == 0 then CycleResult(store, [])
    else
      var p := PollSource(kinds[0], store, today, epicGames, steamGameIds, steamSale);
      var rest := RunSources(topic, kinds[1..], p.store, today, epicGames, steamGameIds, steamSale);
      CycleResult(rest.store, DispatchAll(topic, p.trace) + rest.effects)
  }

  /** One iteration of `loop`. Sources are built anew from the configuration,
      so nothing but the store carries over from earlier iterations. */
  function LoopIteration(
    topic: string, notifyEpic: bool, steamGameIds: seq<int>, store: Store, today: Day,
    epicGames: seq<EpicGame>, steamSale: int -> Option<SteamSaleHit>): CycleResult
  {
    RunSources(topic, ActiveSources(notifyEpic, steamGameIds), store, today, epicGames, steamGameIds, steamSale)
  }

  /** The Epic poll of an iteration, if Epic is enabled. */
  function EpicPoll(notifyEpic: bool, store: Store, today: Day, epicGames: seq<EpicGame>): (p: PollState)
    ensures !notifyEpic ==> p == PollState(store, [])
  {
    if notifyEpic then Poll(EpicSource.Adapter(), epicGames, store, today) else PollState(store, [])
  }

  /** The Steam poll of an iteration, run on the store the Epic poll left. */
  function SteamPoll(steamGameIds: seq<int>, store: Store, today: Day, steamSale: int -> Option<SteamSaleHit>): (p: PollState)
    ensures |steamGameIds| == 0 ==> p == PollState(store, [])
  {
    if |steamGameIds| > 0 then Poll(SteamSource.Adapter(today), SteamSource.Fetch(steamGameIds, steamSale), store, today)
    else PollState(store, [])
  }

  /** With Epic disabled, an iteration is the Steam poll alone. */
  lemma RunSteamOnly(
    topic: string, steamGameIds: seq<int>, store: Store, today: Day,
    epicGames: seq<EpicGame>, steamSale: int -> Option<SteamSaleHit>)
    ensures var s := SteamPoll(steamGameIds, store, today, steamSale);
      RunSources(topic, ActiveSources(false, steamGameIds), store, today, epicGames, steamGameIds, steamSale)
        == CycleResult(s.store, DispatchAll(topic, s.trace))
  {
    var s := SteamPoll(steamGameIds, store, today, steamSale);
    var kinds := ActiveSources(false, steamGameIds);
    assert DispatchAll(topic, []) == [];
    if |steamGameIds| > 0 {
      assert kinds == [SteamKind] && kinds[1..] == [];
      assert s == PollSource(SteamKind, store, today, epicGames, steamGameIds, steamSale);
      assert RunSources(topic, [], s.store, today, epicGames, steamGameIds, steamSale) == CycleResult(s.store, []);
      assert DispatchAll(topic, s.trace) + [] == DispatchAll(topic, s.trace);
    } else {
      assert kinds == [];
    }
  }

  /** An iteration is the Epic poll followed by the Steam poll, each event
      dispatched in place. */
  lemma LoopIterationUnfold(
    topic: string, notifyEpic: bool, steamGameIds: seq<int>, store: Store, today: Day,
    epicGames: seq<EpicGame>, steamSale: int -> Option<SteamSaleHit>)
    ensures var e := EpicPoll(notifyEpic, store, today, epicGames);
      var s := SteamPoll(steamGameIds, e.store, today, steamSale);
      LoopIteration(topic, notifyEpic, steamGameIds, store, today, epicGames, steamSale)
        == CycleResult(s.store, DispatchAll(topic, e.trace) + DispatchAll(topic, s.trace))
  {
    var kinds := ActiveSources(notifyEpic, steamGameIds);
    var e := EpicPoll(notifyEpic, store, today, epicGames);
    RunSteamOnly(topic, steamGameIds, e.store, today, epicGames, steamSale);
    if notifyEpic {
      assert kinds[0] == EpicKind && kinds[1..] == ActiveSources(false, steamGameIds);
      assert e == PollSource(EpicKind, store, today, epicGames, steamGameIds, steamSale);
    } else {
      assert kinds == ActiveSources(false, steamGameIds);
      assert DispatchAll(topic, e.trace) == [];
    }
  }

  /** The pushes of a list of effects, in order. */
  function Posts(effects: seq<Effect>): seq<Request> {
    FilterMap(effects, (e: Effect) => if e.Posted? then Some(e.request) else None)
  }

  /** The push each notification becomes. */
  function SendAll(topic: string, notes: seq<Notification>): (rs: seq<Request>)
    ensures |rs| == |notes|
    ensures forall i :: 0 <= i < |notes| ==> rs[i] == SendNtfy(topic, notes[i].message, notes[i].imageUrl)
  {
    seq(|notes|, i requires 0 <= i < |notes| => SendNtfy(topic, notes[i].message, notes[i].imageUrl))
  }

  lemma {:induction false} PostsOfDispatch(topic: string, trace: seq<Event>)
    ensures Posts(DispatchAll(topic, trace)) == SendAll(topic, Yields(trace))
  {
    if |trace| > 0 {
      var n := |trace| - 1;
      PostsOfDispatch(topic, trace[..n]);
      assert DispatchAll(topic, trace)[..n] == DispatchAll(topic, trace[..n]);
    }
  }

  lemma PostsOfTwoPolls(topic: string, te: seq<Event>, ts: seq<Event>)
    ensures Posts(DispatchAll(topic, te) + DispatchAll(topic, ts)) == SendAll(topic, Yields(te) + Yields(ts))
  {
    FilterMapAppend(DispatchAll(topic, te), DispatchAll(topic, ts), (x: Effect) => if x.Posted? then Some(x.request) else None);
    PostsOfDispatch(topic, te);
    PostsOfDispatch(topic, ts);
    assert SendAll(topic, Yields(te) + Yields(ts)) == SendAll(topic, Yields(te)) + SendAll(topic, Yields(ts));
  }

  /** The store writes of a list of effects, in order. */
  function Records(effects: seq<Effect>): seq<(string, string, Day)> {
    FilterMap(effects, (e: Effect) => if e.Recorded? then Some((e.source, e.key, e.date)) else None)
  }

  /** The store writes of a poll trace, in order. */
  function Saves(trace: seq<Event>): seq<(string, string, Day)> {
    FilterMap(trace, (e: Event) => if e.Saved? then Some((e.source, e.key, e.date)) else None)
  }

  /** Dispatching keeps every write of a trace, in order, and adds none. */
  lemma {:induction false} RecordsOfDispatch(topic: string, trace: seq<Event>)
    ensures Records(DispatchAll(topic, trace)) == Saves(trace)
  {
    if |trace| > 0 {
      var n := |trace| - 1;
      RecordsOfDispatch(topic, trace[..n]);
      assert DispatchAll(topic, trace)[..n] == DispatchAll(topic, trace[..n]);
    }
  }

  /** The writes of an iteration are exactly the Epic poll's writes followed
      by the Steam poll's. */
  lemma LoopIterationRecordsEachSave(
    topic: string, notifyEpic: bool, steamGameIds: seq<int>, store: Store, today: Day,
    epicGames: seq<EpicGame>, steamSale: int -> Option<SteamSaleHit>)
    ensures var e := EpicPoll(notifyEpic, store, today, epicGames);
      var s := SteamPoll(steamGameIds, e.store, today, steamSale);
      Records(LoopIteration(topic, notifyEpic, steamGameIds, store, today, epicGames, steamSale).effects)
        == Saves(e.trace) + Saves(s.trace)
  {
    var e := EpicPoll(notifyEpic, store, today, epicGames);
    var s := SteamPoll(steamGameIds, e.store, today, steamSale);
    LoopIterationUnfold(topic, notifyEpic, steamGameIds, store, today, epicGames, steamSale);
    FilterMapAppend(DispatchAll(topic, e.trace), DispatchAll(topic, s.trace),
      (x: Effect) => if x.Recorded? then Some((x.source, x.key, x.date)) else None);
    RecordsOfDispatch(topic, e.trace);
    RecordsOfDispatch(topic, s.trace);
  }

  /** Every notification a source yields is pushed exactly once, Epic's before
      Steam's and each source's in poll order, and nothing else is pushed. */
  lemma LoopIterationSendsEachYieldOnce(
    topic: string, notifyEpic: bool, steamGameIds: seq<int>, store: Store, today: Day,
    epicGames: seq<EpicGame>, steamSale: int -> Option<SteamSaleHit>)
    ensures var e := EpicPoll(notifyEpic, store, today, epicGames);
      var s := SteamPoll(steamGameIds, e.store, today, steamSale);
      Posts(LoopIteration(topic, notifyEpic, steamGameIds, store, today, epicGames, steamSale).effects)
        == SendAll(topic, Yields(e.trace) + Yields(s.trace))
  {
    var e := EpicPoll(notifyEpic, store, today, epicGames);
    var s := SteamPoll(steamGameIds, e.store, today, steamSale);
    LoopIterationUnfold(topic, notifyEpic, steamGameIds, store, today, epicGames, steamSale);
    PostsOfTwoPolls(topic, e.trace, s.trace);
  }

  lemma EpicPollAlternates(notifyEpic: bool, store: Store, today: Day, epicGames: seq<EpicGame>)
    ensures Alternates(EpicPoll(notifyEpic, store, today, epicGames).trace, EpicSource.Name, today)
  {
    PollTraceShape(EpicSource.Adapter(), epicGames, store, today);
  }

  lemma SteamPollAlternates(steamGameIds: seq<int>, store: Store, today: Day, steamSale: int -> Option<SteamSaleHit>)
    ensures Alternates(SteamPoll(steamGameIds, store, today, steamSale).trace, SteamSource.Name, today)
  {
    PollTraceShape(SteamSource.Adapter(today), SteamSource.Fetch(steamGameIds, steamSale), store, today);
  }

  /** Two alternating traces, dispatched one after the other: each push
      directly follows a write of one of the two sources. */
  lemma AlternationOfTwoPolls(topic: string, te: seq<Event>, ts: seq<Event>, nameE: string, nameS: string, today: Day)
    requires Alternates(te, nameE, today) && Alternates(ts, nameS, today)
    ensures var fx := DispatchAll(topic, te) + DispatchAll(topic, ts);
      forall i :: 0 <= i < |fx| && fx[i].Posted? ==>
        && i > 0
        && fx[i - 1].Recorded?
        && fx[i - 1].date == today
        && (fx[i - 1].source == nameE || fx[i - 1].source == nameS)
  {
    var de := DispatchAll(topic, te);
    var ds := DispatchAll(topic, ts);
    var fx := de + ds;
    forall i | 0 <= i < |fx| && fx[i].Posted?
      ensures i > 0 && fx[i - 1].Recorded? && fx[i - 1].date == today
      ensures fx[i - 1].source == nameE || fx[i - 1].source == nameS
    {
      if i < |de| {
        assert fx[i] == Dispatch(topic, te[i]);
        assert i % 2 == 1;
        assert fx[i - 1] == Dispatch(topic, te[i - 1]);
      } else {
        var j := i - |de|;
        assert fx[i] == Dispatch(topic, ts[j]);
        assert j % 2 == 1;
        assert fx[i - 1] == Dispatch(topic, ts[j - 1]);
      }
    }
  }

  /** Write-before-send across the iteration: every push directly follows a
      write dated today under the Epic or the Steam name. */
  lemma LoopIterationWritesBeforeSending(
    topic: string, notifyEpic: bool, steamGameIds: seq<int>, store: Store, today: Day,
    epicGames: seq<EpicGame>, steamSale: int -> Option<SteamSaleHit>)
    ensures var fx := LoopIteration(topic, notifyEpic, steamGameIds, store, today, epicGames, steamSale).effects;
      forall i :: 0 <= i < |fx| && fx[i].Posted? ==>
        && i > 0
        && fx[i - 1].Recorded?
        && fx[i - 1].date == today
        && (fx[i - 1].source == EpicSource.Name || fx[i - 1].source == SteamSource.Name)
  {
    var e := EpicPoll(notifyEpic, store, today, epicGames);
    var s := SteamPoll(steamGameIds, e.store, today, steamSale);
    LoopIterationUnfold(topic, notifyEpic, steamGameIds, store, today, epicGames, steamSale);
    EpicPollAlternates(notifyEpic, store, today, epicGames);
    SteamPollAlternates(steamGameIds, e.store, today, steamSale);
    AlternationOfTwoPolls(topic, e.trace, s.trace, EpicSource.Name, SteamSource.Name, today);
  }

  /** An iteration keeps every record, and a record it adds or changes holds
      today's day and belongs to a source that was enabled. */
  lemma LoopIterationTouchesOnlyEnabledSources(
    topic: string, notifyEpic: bool, steamGameIds: seq<int>, store: Store, today: Day,
    epicGames: seq<EpicGame>, steamSale: int -> Option<SteamSaleHit>)
    ensures var r := LoopIteration(topic, notifyEpic, steamGameIds, store, today, epicGames, steamSale).store;
      && (forall p :: p in store ==> p in r)
      && (forall p :: p in r && (p !in store || r[p] != store[p]) ==>
            && r[p] == today
            && ((p.0 == EpicSource.Name && notifyEpic) || (p.0 == SteamSource.Name && |steamGameIds| > 0)))
  {
    var e := EpicPoll(notifyEpic, store, today, epicGames);
    var s := SteamPoll(steamGameIds, e.store, today, steamSale);
    LoopIterationUnfold(topic, notifyEpic, steamGameIds, store, today, epicGames, steamSale);
    PollFrame(EpicSource.Adapter(), epicGames, store, today);
    PollFrame(SteamSource.Adapter(today), SteamSource.Fetch(steamGameIds, steamSale), e.store, today);
  }

  /** A worked iteration: Epic disabled, watch list `[100, 200]`, a 20% sale
      reported for 100 and none for 200, an empty store. Exactly one push is
      made, and afterwards the store holds the single record `("steam", "100")`
      dated today. */
  lemma SteamWatchListExample(topic: string, today: Day, hit: SteamSaleHit)
    requires hit.appid == 100 && hit.discountPercentage == 20
    ensures var sale := (id: int) => if id == 100 then Some(hit) else None;
      var r := LoopIteration(topic, false, [100, 200], map[], today, [], sale);
      && |Posts(r.effects)| == 1
      && r.store == map[(SteamSource.Name, "100") := today]
  {
    var sale := (id: int) => if id == 100 then Some(hit) else None;
    var ids := [100, 200];
    var hits := SteamSource.Fetch(ids, sale);
    assert ids[..1] == [100];
    assert [100][..0] == [];
    assert hits == [hit];
    assert Text.NatToString(10) == "10";
    assert Text.NatToString(100) == "100";
    var src := SteamSource.Adapter(today);
    var empty: Store := map[];
    assert [hit][..0] == [];
    assert Poll(src, [], empty, today) == PollState(empty, []);
    assert src.itemKey(hit) == "100";
    assert src.shouldNotify(empty, "100");
    var p := Poll(src, [hit], empty, today);
    assert p == PollStep(src, PollState(empty, []), hit, today);
    assert p.trace == [] + [Saved(SteamSource.Name, "100", today), Yielded(SteamSource.ToNotification(hit))];
    assert p.store == map[(SteamSource.Name, "100") := today];
    assert Yields(p.trace) == [SteamSource.ToNotification(hit)] by {
      var tr := p.trace;
      assert tr == [Saved(SteamSource.Name, "100", today), Yielded(SteamSource.ToNotification(hit))];
      assert tr[..1] == [Saved(SteamSource.Name, "100", today)];
      assert tr[..1][..0] == [];
      assert Yields([]) == [];
      assert Yields(tr[..1]) == [];
      assert tr[|tr| - 1] == Yielded(SteamSource.ToNotification(hit));
    }
    LoopIterationSendsEachYieldOnce(topic, false, ids, empty, today, [], sale);
    LoopIterationUnfold(topic, false, ids, empty, today, [], sale);
    assert Yields([]) == [];
  }
}
