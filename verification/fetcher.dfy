/** The Epic free-games check (`fetcher.py`). The storefront's JSON catalog
    element is modelled by the members the check reads; timestamps are
    integers on the same clock as `now`. */
module Fetcher {
  import opened Basics

  /** A JSON object member: absent, explicitly `null`, or present. */
  datatype Field<+T> = Missing | Null | Present(value: T)

  /** One promotional offer. `discountType` is `None` when `discountSetting`
      is absent, or its `discountType` is absent or `null`. A `null`
      `discountSetting` makes the code raise, and is not represented. */
  datatype Offer = Offer(discountType: Option<string>, startDate: int, endDate: int)

  /** One block of the `promotionalOffers` list; its own `promotionalOffers`
      list may be absent. */
  datatype OfferBlock = OfferBlock(promotionalOffers: Option<seq<Offer>>)

  /** The `promotions` object with its two known members; it is an empty
      object (falsy in Python) when both are absent. */
  datatype Promotions = Promotions(
    promotionalOffers: Field<seq<OfferBlock>>,
    upcomingPromotionalOffers: Field<seq<OfferBlock>>)

  /** A catalog element. `discountPrice` is `None` when `price` or
      `totalPrice` is absent, or `discountPrice` is absent or `null`. A `null`
      `price` or `totalPrice` makes the code raise once a percentage offer is
      reached, and is not represented. */
  datatype CatalogElement = CatalogElement(title: string, promotions: Field<Promotions>, discountPrice: Option<int>)

  const PercentageDiscount: string := "PERCENTAGE"

  /** Python truthiness of `game.get("promotions", {})`. */
  predicate PromotionsTruthy(p: Field<Promotions>) {
    p.Present? && !(p.value.promotionalOffers.Missing? && p.value.upcomingPromotionalOffers.Missing?)
  }

  /** `promo.get("promotionalOffers") or []`. */
  function OfferBlocks(p: Promotions): seq<OfferBlock> {
    match p.promotionalOffers
    case Present(blocks) => blocks
    case _ => []
  }

  /** The test one offer makes: a percentage discount whose window contains
      `now` (both ends inclusive) on a game whose discounted price is 0. */
  predicate OfferMakesFree(offer: Offer, price: Option<int>, now: int) {
    && offer.discountType == Some(PercentageDiscount)
    && price == Some(0)
    && offer.startDate <= now <= offer.endDate
  }

  /** The inner loop: some offer of the list passes the test. */
  function AnyOfferFree(offers: seq<Offer>, price: Option<int>, now: int): (r: bool)
    ensures r ==> price == Some(0)
  {
    if |offers| == 0 then false
    else OfferMakesFree(offers[0], price, now) || AnyOfferFree(offers[1..], price, now)
  }

  /** The outer loop over offer blocks. */
  function AnyBlockFree(blocks: seq<OfferBlock>, price: Option<int>, now: int): (r: bool)
    ensures r ==> price == Some(0)
  {
    if |blocks| == 0 then false
    else
      var offers := if blocks[0].promotionalOffers.Some? then blocks[0].promotionalOffers.value else [];
      AnyOfferFree(offers, price, now) || AnyBlockFree(blocks[1..], price, now)
  }

  /** `is_currently_free(game)` with the clock reading `now` passed in. */
  function IsCurrentlyFree(game: CatalogElement, now: int): (r: bool)
    ensures !PromotionsTruthy(game.promotions) ==> !r
    ensures r ==> game.discountPrice == Some(0)
  {
    PromotionsTruthy(game.promotions) && AnyBlockFree(OfferBlocks(game.promotions.value), game.discountPrice, now)
  }

  /** Reference reading of the check: the game's `promotionalOffers` list holds a
      block with an offer list holding an offer that makes it free now. */
  ghost predicate HasActiveFreeOffer(game: CatalogElement, now: int) {
    && game.promotions.Present?
    && game.promotions.value.promotionalOffers.Present?
    && var blocks := game.promotions.value.promotionalOffers.value;
    exists i, j ::
      && 0 <= i < |blocks|
      && blocks[i].promotionalOffers.Some?
      && 0 <= j < |blocks[i].promotionalOffers.value|
      && OfferMakesFree(blocks[i].promotionalOffers.value[j], game.discountPrice, now)
  }

  lemma {:induction false} AnyOfferFreeIff(offers: seq<Offer>, price: Option<int>, now: int)
    ensures AnyOfferFree(offers, price, now) <==> exists j :: 0 <= j < |offers| && OfferMakesFree(offers[j], price, now)
  {
    if |offers| > 0 {
      AnyOfferFreeIff(offers[1..], price, now);
      if exists j :: 0 <= j < |offers| && OfferMakesFree(offers[j], price, now) {
        var j :| 0 <= j < |offers| && OfferMakesFree(offers[j], price, now);
        if j > 0 {
          assert offers[1..][j - 1] == offers[j];
        }
      }
      if exists j :: 0 <= j < |offers[1..]| && OfferMakesFree(offers[1..][j], price, now) {
        var j :| 0 <= j < |offers[1..]| && OfferMakesFree(offers[1..][j], price, now);
        assert offers[1..][j] == offers[j + 1];
      }
    }
  }

  lemma {:induction false} AnyBlockFreeIff(blocks: seq<OfferBlock>, price: Option<int>, now: int)
    ensures AnyBlockFree(blocks, price, now) <==>
      exists i, j ::
        && 0 <= i < |blocks|
        && blocks[i].promotionalOffers.Some?
        && 0 <= j < |blocks[i].promotionalOffers.value|
        && OfferMakesFree(blocks[i].promotionalOffers.value[j], price, now)
  {
    if |blocks| > 0 {
      var offers := if blocks[0].promotionalOffers.Some? then blocks[0].promotionalOffers.value else [];
      AnyOfferFreeIff(offers, price, now);
      AnyBlockFreeIff(blocks[1..], price, now);
      var rest := blocks[1..];
      if exists i, j ::
        && 0 <= i < |blocks|
        && blocks[i].promotionalOffers.Some?
        && 0 <= j < |blocks[i].promotionalOffers.value|
        && OfferMakesFree(blocks[i].promotionalOffers.value[j], price, now)
      {
        var i, j :|
          && 0 <= i < |blocks|
          && blocks[i].promotionalOffers.Some?
          && 0 <= j < |blocks[i].promotionalOffers.value|
          && OfferMakesFree(blocks[i].promotionalOffers.value[j], price, now);
        if i > 0 {
          assert rest[i - 1] == blocks[i];
        }
      }
      if exists i, j ::
        && 0 <= i < |rest|
        && rest[i].promotionalOffers.Some?
        && 0 <= j < |rest[i].promotionalOffers.value|
        && OfferMakesFree(rest[i].promotionalOffers.value[j], price, now)
      {
        var i, j :|
          && 0 <= i < |rest|
          && rest[i].promotionalOffers.Some?
          && 0 <= j < |rest[i].promotionalOffers.value|
          && OfferMakesFree(rest[i].promotionalOffers.value[j], price, now);
        assert rest[i] == blocks[i + 1];
      }
    }
  }

  /** The loops of `is_currently_free` decide exactly the reference reading:
      a game is free iff some offer in some block is a percentage discount
      active at `now` and its discounted price is 0. Offers of any other
      discount type, a missing or non-zero price, and missing, `null` or empty
      promotions all make it not free. */
  lemma IsCurrentlyFreeIff(game: CatalogElement, now: int)
    ensures IsCurrentlyFree(game, now) <==> HasActiveFreeOffer(game, now)
  {
    if game.promotions.Present? {
      AnyBlockFreeIff(OfferBlocks(game.promotions.value), game.discountPrice, now);
    }
  }

  /** `epic_free_games()` over an already fetched list of catalog elements:
      the titles of the free ones. */
  function EpicFreeGames(elements: seq<CatalogElement>, now: int): (titles: seq<string>)
    ensures |titles| <= |elements|
  {
    FilterMap(elements, (g: CatalogElement) => if IsCurrentlyFree(g, now) then Some(g.title) else None)
  }

  /** The titles returned are those of exactly the free elements, in input
      order: an increasing list of positions picks them out, and a position is
      picked iff its element is free. */
  lemma EpicFreeGamesSelection(elements: seq<CatalogElement>, now: int) returns (idx: seq<int>)
    ensures Increasing(idx, |elements|)
    ensures |idx| == |EpicFreeGames(elements, now)|
    ensures forall k :: 0 <= k < |idx| ==>
      IsCurrentlyFree(elements[idx[k]], now) && EpicFreeGames(elements, now)[k] == elements[idx[k]].title
    ensures forall i :: 0 <= i < |elements| ==> (IsCurrentlyFree(elements[i], now) <==> i in idx)
  {
    var f := (g: CatalogElement) => if IsCurrentlyFree(g, now) then Some(g.title) else None;
    idx := FilterMapSelection(elements, f);
    assert forall i :: 0 <= i < |elements| ==> (f(elements[i]).Some? <==> IsCurrentlyFree(elements[i], now));
  }
}
