/** The Steam adapter (`sources/steam.py`): polls a configured list of app ids,
    keys a sale by its app id, and re-announces a sale once the previous
    announcement is more than seven days old. */
module SteamSource {
  import opened Basics
  import opened Text
  import opened Models
  import opened NotificationStore
  import opened SourceBase
  import Utils

  const Name: string := "steam"

  /** `fetch()`: asks the price lookup about every wanted id, in order, and
      keeps the hits. The lookup (`steam_sale`) is an oracle here. */
  function Fetch(wantedGameIds: seq<int>, steamSale: int -> Option<SteamSaleHit>): (hits: seq<SteamSaleHit>)
    ensures |hits| <= |wantedGameIds|
  {
    FilterMap(wantedGameIds, steamSale)
  }

  /** The hits are exactly the lookups that found a sale, in wanted-id order. */
  lemma FetchSelection(wantedGameIds: seq<int>, steamSale: int -> Option<SteamSaleHit>) returns (idx: seq<int>)
    ensures Increasing(idx, |wantedGameIds|)
    ensures |idx| == |Fetch(wantedGameIds, steamSale)|
    ensures forall k :: 0 <= k < |idx| ==> steamSale(wantedGameIds[idx[k]]) == Some(Fetch(wantedGameIds, steamSale)[k])
    ensures forall i :: 0 <= i < |wantedGameIds| ==> (steamSale(wantedGameIds[i]).Some? <==> i in idx)
  {
    idx := FilterMapSelection(wantedGameIds, steamSale);
  }

  /** `item_key`: the decimal text of the app id. */
  function ItemKey(item: SteamSaleHit): string {
    IntToString(item.appid)
  }

  /** Keys are stable and distinct: two hits share a key iff they share an app id. */
  lemma ItemKeyIdentifiesApp(a: SteamSaleHit, b: SteamSaleHit)
    ensures ItemKey(a) == ItemKey(b) <==> a.appid == b.appid
  {
    IntToStringInjective(a.appid, b.appid);
  }

  /** `should_notify`: eligible when the key has no record, or when its record
      is more than seven days before today. */
  function ShouldNotify(store: Store, key: string, today: Day): (r: bool)
    ensures (Name, key) !in store ==> r
    ensures (Name, key) in store ==> (r <==> store[(Name, key)] + Utils.SuppressionDays < today)
  {
    match Get(store, Name, key)
    case None => true
    case Some(lastNotified) => !Utils.IsDateWithinDays(lastNotified, Utils.SuppressionDays, today)
  }

  const SaleInfix: string := " is on sale for "

  const DiscountOpen: string := "! (-"

  const DiscountClose: string := "%)"

  /** The text after the title: the price and the discount. */
  function SaleTail(price: string, discount: int): string {
    price + DiscountOpen + IntToString(discount) + DiscountClose
  }

  /** The message text of a sale. */
  function SaleMessage(item: SteamSaleHit): string {
    item.title + SaleInfix + SaleTail(item.price, item.discountPercentage)
  }

  /** `to_notification`: `"{title} is on sale for {price}! (-{discount}%)"`,
      the banner as image, no store link. */
  function ToNotification(item: SteamSaleHit): (n: Notification)
    ensures n.imageUrl == item.bannerUrl && n.storeUrl == ""
    ensures var m, d := n.message, IntToString(item.discountPercentage);
      var a := |item.title|;
      var b := a + |SaleInfix|;
      var c := b + |item.price|;
      var e := c + |DiscountOpen| + |d|;
      && |m| == e + |DiscountClose|
      && m[..a] == item.title
      && m[a..b] == SaleInfix
      && m[b..c] == item.price
      && m[c..c + |DiscountOpen|] == DiscountOpen
      && m[c + |DiscountOpen|..e] == d
      && m[e..] == DiscountClose
  {
    assert SaleMessage(item) ==
      item.title + SaleInfix + item.price + DiscountOpen + IntToString(item.discountPercentage) + DiscountClose;
    Notification(SaleMessage(item), imageUrl := item.bannerUrl)
  }

  /** No character after the first of a sale tail's fixed text and discount
      is a `!`: the discount is digits and a sign. */
  lemma DiscountPartHasNoBang(d: int)
    ensures var t := DiscountOpen + IntToString(d) + DiscountClose;
      forall k :: 1 <= k < |t| ==> t[k] != '!'
  {
    var s := IntToString(d);
    var t := DiscountOpen + s + DiscountClose;
    forall k | 1 <= k < |t|
      ensures t[k] != '!'
    {
      if k < |DiscountOpen| {
        assert t[k] == DiscountOpen[k];
      } else if k < |DiscountOpen| + |s| {
        assert t[k] == s[k - |DiscountOpen|];
      } else {
        assert t[k] == DiscountClose[k - |DiscountOpen| - |s|];
      }
    }
  }

  /** In a sale tail, the `!` right after the price is the last one. */
  lemma SaleTailLastBang(p: string, d: int)
    ensures var x := SaleTail(p, d);
      && |p| < |x| && x[|p|] == '!'
      && forall j :: |p| < j < |x| ==> x[j] != '!'
  {
    var x := SaleTail(p, d);
    var t := DiscountOpen + IntToString(d) + DiscountClose;
    assert x == p + t;
    DiscountPartHasNoBang(d);
    assert forall j :: |p| <= j < |x| ==> x[j] == t[j - |p|];
  }

  /** A sale tail splits back into the price and the discount part. */
  lemma SaleTailParts(p: string, d: int)
    ensures var x := SaleTail(p, d);
      var t := DiscountOpen + IntToString(d) + DiscountClose;
      && x[..|p|] == p
      && x[|p|..] == t
      && t[|DiscountOpen|..|t| - |DiscountClose|] == IntToString(d)
  {
    var t := DiscountOpen + IntToString(d) + DiscountClose;
    assert SaleTail(p, d) == p + t;
  }

  /** The price ends at the last `!` of the tail, so the tail determines the
      price and the discount. */
  lemma SaleTailUnique(p1: string, d1: int, p2: string, d2: int)
    requires SaleTail(p1, d1) == SaleTail(p2, d2)
    ensures p1 == p2 && d1 == d2
  {
    SaleTailLastBang(p1, d1);
    SaleTailLastBang(p2, d2);
    assert |p1| == |p2|;
    SaleTailParts(p1, d1);
    SaleTailParts(p2, d2);
    IntToStringInjective(d1, d2);
  }

  /** For one title, the message names the price and the discount exactly:
      two sales of a game read the same iff they have the same price and
      discount. */
  lemma SaleMessageDeterminesSale(a: SteamSaleHit, b: SteamSaleHit)
    requires a.title == b.title
    ensures ToNotification(a).message == ToNotification(b).message <==>
      a.price == b.price && a.discountPercentage == b.discountPercentage
  {
    var ma, mb := SaleMessage(a), SaleMessage(b);
    var k := |a.title| + |SaleInfix|;
    if ma == mb {
      assert ma[k..] == SaleTail(a.price, a.discountPercentage);
      assert mb[k..] == SaleTail(b.price, b.discountPercentage);
      SaleTailUnique(a.price, a.discountPercentage, b.price, b.discountPercentage);
    }
  }

  /** The adapter as `poll` sees it on a given day. */
  function Adapter(today: Day): (src: Source<SteamSaleHit>)
    ensures src.name == Name
  {
    Source(Name, ItemKey, (s: Store, k: string) => ShouldNotify(s, k, today), ToNotification)
  }

  /** A key recorded today is still inside its seven-day window. */
  lemma AdapterSuppressesSameDay(today: Day)
    ensures SuppressesSameDay(Adapter(today), today)
  {
  }

  /** A game notified exactly seven days ago stays silent; eight days ago it is
      eligible again. */
  lemma SevenDayBoundary(store: Store, key: string, today: Day)
    ensures Get(store, Name, key) == Some(today - 7) ==> !ShouldNotify(store, key, today)
    ensures Get(store, Name, key) == Some(today - 8) ==> ShouldNotify(store, key, today)
  {
  }

  /** One Steam poll announces each app at most once, even if the wanted list
      names it twice: the second sighting finds the record written today. */
  lemma PollAnnouncesEachAppOnce(hits: seq<SteamSaleHit>, store: Store, today: Day)
    ensures var tr := Poll(Adapter(today), hits, store, today).trace;
      forall i, j :: 0 <= i < j < |tr| && tr[i].Saved? && tr[j].Saved? ==> tr[i].key != tr[j].key
  {
    AdapterSuppressesSameDay(today);
    PollSavesEachKeyOnce(Adapter(today), hits, store, today);
  }
}
