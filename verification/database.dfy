/** The legacy per-source tables (`database.py`). `SteamSale` maps a Steam game
    id to the day it was last notified; `EpicNotification` maps an Epic title to
    the day it was notified. Each table is a finite map, so its primary key
    holds by construction: at most one row per id or title. A table that was
    never created is `None`; SQLite then fails every statement on it. */
module Database {
  import opened Basics

  type SteamSaleTable = map<int, Day>
  type EpicNotificationTable = map<string, Day>

  datatype Db = Db(steamSale: Option<SteamSaleTable>, epicNotification: Option<EpicNotificationTable>)

  datatype DbError =
    | NoSuchTable(table: string)
    | UniqueConstraintFailed(table: string)

  datatype Result<+T> = Ok(value: T) | Err(error: DbError)

  const SteamSaleName: string := "SteamSale"
  const EpicNotificationName: string := "EpicNotification"

  /** A database file before `init_sqlite_db` ran. */
  const EmptyDb: Db := Db(None, None)

  predicate Initialized(db: Db) {
    db.steamSale.Some? && db.epicNotification.Some?
  }

  /** `SELECT game_id, last_notified FROM SteamSale WHERE game_id = ?`, first row. */
  function GetSteamGame(db: Db, gameId: int): (r: Result<Option<(int, Day)>>)
    ensures db.steamSale.None? ==> r == Err(NoSuchTable(SteamSaleName))
    ensures db.steamSale.Some? ==>
      var t := db.steamSale.value;
      && r.Ok?
      && (r.value.Some? <==> gameId in t)
      && (gameId in t ==> r.value.value == (gameId, t[gameId]))
  {
    match db.steamSale
    case None => Err(NoSuchTable(SteamSaleName))
    case Some(t) => Ok(if gameId in t then Some((gameId, t[gameId])) else None)
  }

  /** `INSERT OR REPLACE INTO SteamSale`: an upsert of one row. */
  function SetOrUpdateSteamGame(db: Db, gameId: int, date: Day): (r: Result<Db>)
    ensures db.steamSale.None? ==> r == Err(NoSuchTable(SteamSaleName))
    ensures db.steamSale.Some? ==>
      && r.Ok?
      && r.value.epicNotification == db.epicNotification
      && r.value.steamSale.Some?
      && var t, t' := db.steamSale.value, r.value.steamSale.value;
      && t'.Keys == t.Keys + {gameId}
      && t'[gameId] == date
      && (forall g :: g in t && g != gameId ==> t'[g] == t[g])
  {
    match db.steamSale
    case None => Err(NoSuchTable(SteamSaleName))
    case Some(t) => Ok(db.(steamSale := Some(t[gameId := date])))
  }

  /** Upserting the same Steam row twice leaves the same tables as once. */
  lemma SetOrUpdateSteamGameIdempotent(db: Db, gameId: int, date: Day)
    ensures var once := SetOrUpdateSteamGame(db, gameId, date);
      once.Ok? ==> SetOrUpdateSteamGame(once.value, gameId, date) == once
  {
    if db.steamSale.Some? {
      var t := db.steamSale.value;
      assert t[gameId := date][gameId := date] == t[gameId := date];
    }
  }

  /** `INSERT INTO SteamSale` of `(game_id, today)`: a plain insert, which the
      primary key makes fail when the id already has a row. */
  function AddSteamGame(db: Db, gameId: int, today: Day): (r: Result<Db>)
    ensures db.steamSale.None? ==> r == Err(NoSuchTable(SteamSaleName))
    ensures db.steamSale.Some? && gameId in db.steamSale.value ==>
      r == Err(UniqueConstraintFailed(SteamSaleName))
    ensures db.steamSale.Some? && gameId !in db.steamSale.value ==>
      && r.Ok?
      && r.value.epicNotification == db.epicNotification
      && r.value.steamSale.Some?
      && var t, t' := db.steamSale.value, r.value.steamSale.value;
      && t'.Keys == t.Keys + {gameId}
      && t'[gameId] == today
      && (forall g :: g in t ==> t'[g] == t[g])
  {
    match db.steamSale
    case None => Err(NoSuchTable(SteamSaleName))
    case Some(t) =>
      if gameId in t then Err(UniqueConstraintFailed(SteamSaleName))
      else Ok(db.(steamSale := Some(t[gameId := today])))
  }

  /** `SELECT title, date_notified FROM EpicNotification WHERE title = ?`, first row. */
  function GetEpicEntry(db: Db, title: string): (r: Result<Option<(string, Day)>>)
    ensures db.epicNotification.None? ==> r == Err(NoSuchTable(EpicNotificationName))
    ensures db.epicNotification.Some? ==>
      var t := db.epicNotification.value;
      && r.Ok?
      && (r.value.Some? <==> title in t)
      && (title in t ==> r.value.value == (title, t[title]))
  {
    match db.epicNotification
    case None => Err(NoSuchTable(EpicNotificationName))
    case Some(t) => Ok(if title in t then Some((title, t[title])) else None)
  }

  /** `INSERT INTO EpicNotification`: although documented as "set or update",
      this is a plain insert, so it fails for a title that already has a row. */
  function SetEpicEntry(db: Db, title: string, dateNotified: Day): (r: Result<Db>)
    ensures db.epicNotification.None? ==> r == Err(NoSuchTable(EpicNotificationName))
    ensures db.epicNotification.Some? && title in db.epicNotification.value ==>
      r == Err(UniqueConstraintFailed(EpicNotificationName))
    ensures db.epicNotification.Some? && title !in db.epicNotification.value ==>
      && r.Ok?
      && r.value.steamSale == db.steamSale
      && r.value.epicNotification.Some?
      && var t, t' := db.epicNotification.value, r.value.epicNotification.value;
      && t'.Keys == t.Keys + {title}
      && t'[title] == dateNotified
      && (forall k :: k in t ==> t'[k] == t[k])
  {
    match db.epicNotification
    case None => Err(NoSuchTable(EpicNotificationName))
    case Some(t) =>
      if title in t then Err(UniqueConstraintFailed(EpicNotificationName))
      else Ok(db.(epicNotification := Some(t[title := dateNotified])))
  }

  /** `CREATE TABLE IF NOT EXISTS` for both tables: afterwards both exist, a
      table that existed keeps every row, and a new one is empty. */
  function InitSqliteDb(db: Db): (r: Db)
    ensures Initialized(r)
    ensures db.steamSale.Some? ==> r.steamSale == db.steamSale
    ensures db.epicNotification.Some? ==> r.epicNotification == db.epicNotification
    ensures db.steamSale.None? ==> r.steamSale == Some(map[])
    ensures db.epicNotification.None? ==> r.epicNotification == Some(map[])
  {
    Db(
      if db.steamSale.Some? then db.steamSale else Some(map[]),
      if db.epicNotification.Some? then db.epicNotification else Some(map[]))
  }

  /** Running the initialisation again changes nothing. */
  lemma InitSqliteDbIdempotent(db: Db)
    ensures InitSqliteDb(InitSqliteDb(db)) == InitSqliteDb(db)
  {
  }
}
