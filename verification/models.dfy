/** The immutable records items are fetched as (`models.py`). Defaults follow
    the dataclass field defaults. */
module Models {

  /** A game currently given away on the Epic store. */
  datatype EpicGame = EpicGame(title: string := "", bannerUrl: string := "", storeUrl: string := "")

  /** A discounted Steam game, as the Steam price lookup reports it. */
  datatype SteamSaleHit = SteamSaleHit(
    appid: int,
    discountPercentage: int,
    title: string := "",
    bannerUrl: string := "",
    storeUrl: string := "",
    price: string := "")
}
