/** The Epic adapter (`sources/epic.py`): keys a free game by its title and
    announces each title once, ever. */
module EpicSource {
  import opened Basics
  import opened Models
  import opened NotificationStore
  import opened SourceBase

  const Name: string := "epic"

  const FreeSuffix: string := " is currently free on Epic Games!"

  /** `item_key`: the title. */
  function ItemKey(item: EpicGame): string {
    item.title
  }

  /** `should_notify`: eligible iff the title has no record, whatever its day. */
  function ShouldNotify(store: Store, key: string): (r: bool)
    ensures r <==> (Name, key) !in store
  {
    Get(store, Name, key).None?
  }

  /** The announcement text for a free title (shared with the legacy cycle). */
  function FreeMessage(title: string): (m: string)
    ensures |m| == |title| + |FreeSuffix|
    ensures m[..|title|] == title && m[|title|..] == FreeSuffix
  {
    title + FreeSuffix
  }

  /** Recovers the title from an announcement text. */
  function TitleOfFreeMessage(m: string): Option<string> {
    if |m| >= |FreeSuffix| && m[|m| - |FreeSuffix|..] == FreeSuffix then Some(m[..|m| - |FreeSuffix|]) else None
  }

  /** The text names its title unambiguously, so distinct titles give distinct
      announcements. */
  lemma FreeMessageRoundTrip(title: string)
    ensures TitleOfFreeMessage(FreeMessage(title)) == Some(title)
  {
  }

  /** `to_notification`: the free-game message, the banner as image, no store link. */
  function ToNotification(item: EpicGame): (n: Notification)
    ensures n.imageUrl == item.bannerUrl && n.storeUrl == ""
    ensures TitleOfFreeMessage(n.message) == Some(item.title)
  {
    FreeMessageRoundTrip(item.title);
    Notification(FreeMessage(item.title), imageUrl := item.bannerUrl)
  }

  function Adapter(): (src: Source<EpicGame>)
    ensures src.name == Name
  {
    Source(Name, ItemKey, ShouldNotify, ToNotification)
  }

  /** A recorded title is refused, in particular one recorded today. */
  lemma AdapterSuppressesSameDay(today: Day)
    ensures SuppressesSameDay(Adapter(), today)
  {
  }

  /** Permanent suppression: once a title has a record, no later poll on any
      day writes it again or changes its day, whatever items are fetched. */
  lemma {:induction false} RecordedTitleNeverRenotified(games: seq<EpicGame>, store: Store, today: Day, title: string)
    requires (Name, title) in store
    ensures var r := Poll(Adapter(), games, store, today);
      && (forall e :: e in r.trace && e.Saved? ==> e.key != title)
      && r.store[(Name, title)] == store[(Name, title)]
  {
    if |games| > 0 {
      var n := |games| - 1;
      RecordedTitleNeverRenotified(games[..n], store, today, title);
    }
  }

  /** Within one poll, a title fetched several times is announced at most once. */
  lemma PollAnnouncesEachTitleOnce(games: seq<EpicGame>, store: Store, today: Day)
    ensures var tr := Poll(Adapter(), games, store, today).trace;
      forall i, j :: 0 <= i < j < |tr| && tr[i].Saved? && tr[j].Saved? ==> tr[i].key != tr[j].key
  {
    AdapterSuppressesSameDay(today);
    PollSavesEachKeyOnce(Adapter(), games, store, today);
  }
}
