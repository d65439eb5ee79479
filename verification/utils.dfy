/** The legacy freshness rules (`utils.py`): pure questions about a stored day
    and today. Both eligibility checks only read the tables: they return a
    verdict and no new database. */
module Utils {
  import opened Basics
  import opened Database

  /** Days a Steam sale stays silent after it was notified. */
  const SuppressionDays: int := 7

  /** Whether `date`, moved `delta` days forward, reaches today: that is, at
      most `delta` days have passed since `date` (future days included). */
  function IsDateWithinDays(date: Day, delta: int, today: Day): (r: bool)
    ensures r <==> today - date <= delta
    ensures delta >= 0 && date >= today ==> r
  {
    date + delta >= today
  }

  /** A wider window accepts every date a narrower one does. */
  lemma WithinDaysMonotone(date: Day, delta: int, today: Day)
    requires IsDateWithinDays(date, delta, today)
    ensures IsDateWithinDays(date, delta + 1, today)
  {
  }

  /** A Steam game is eligible when it has no row, or when more than seven days
      have passed since its row's day. */
  function SteamShouldNotify(db: Db, gameId: int, today: Day): (r: Result<bool>)
    ensures db.steamSale.None? ==> r == Err(NoSuchTable(SteamSaleName))
    ensures db.steamSale.Some? ==>
      var t := db.steamSale.value;
      r.Ok? && (r.value <==> gameId !in t || t[gameId] + SuppressionDays < today)
  {
    match GetSteamGame(db, gameId)
    case Err(e) => Err(e)
    case Ok(None) => Ok(true)
    case Ok(Some((_, lastNotified))) => Ok(!IsDateWithinDays(lastNotified, SuppressionDays, today))
  }

  /** A game notified exactly seven days ago is still suppressed; eight days
      ago it is eligible again. */
  lemma SteamWindowBoundary(db: Db, gameId: int, today: Day)
    requires db.steamSale.Some?
    ensures gameId in db.steamSale.value && db.steamSale.value[gameId] == today - 7 ==>
      SteamShouldNotify(db, gameId, today) == Ok(false)
    ensures gameId in db.steamSale.value && db.steamSale.value[gameId] == today - 8 ==>
      SteamShouldNotify(db, gameId, today) == Ok(true)
  {
  }

  /** An Epic title is eligible exactly when it has no row, whatever its day. */
  function EpicShouldNotify(db: Db, title: string): (r: Result<bool>)
    ensures db.epicNotification.None? ==> r == Err(NoSuchTable(EpicNotificationName))
    ensures db.epicNotification.Some? ==> r == Ok(title !in db.epicNotification.value)
  {
    match GetEpicEntry(db, title)
    case Err(e) => Err(e)
    case Ok(entry) => Ok(entry.None?)
  }
}
