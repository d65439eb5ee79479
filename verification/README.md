# game-notifier, modelled in Dafny

game-notifier watches two storefronts and pushes a message to an ntfy topic:

- Epic Games titles that are free right now;
- Steam apps on a user's watch list that are on sale.

It records what it has announced, so that it does not announce the same thing twice:

- an Epic title is announced once, ever;
- a Steam app is announced again only after its last announcement is more than seven days old.

The repository has two revisions of the cycle, and both are modelled here:

- **The source layer** (`sources/`, `notifier.py`): each storefront is an
  adapter with a name, an item key, an eligibility check and a renderer. The
  shared `poll` walks the fetched items and records every eligible key with
  today's date before it yields the notification. `loop` polls Epic, then Steam,
  and pushes every notification as it is yielded. Records live in one table
  keyed by (source, key).
- **The legacy cycle** (`main.py`): `handle_notifications` works on two
  per-source SQLite tables (`SteamSale`, `EpicNotification`). It uses the
  checks in `utils.py` and the row operations in `database.py`.

Conventions:

- Dates are whole day numbers (`Basics.Day`). Today and the current instant are parameters.
- A database is a value. A table that has not been created is `None`, and reading or writing it gives the `no such table` error.
- HTTP, the Steam price lookup and the Epic catalogue are inputs to the model:
  - the Steam lookup is a function parameter;
  - the Epic catalogue is a list of catalogue elements.
- The modules follow the program:

| Module | Models |
|---|---|
| `Basics` | days, `Option`, an order-keeping filter |
| `Text` | `str(int)`, `split`, `strip`, `lower` |
| `Models` | `models.py` |
| `Database` | `database.py` |
| `Utils` | `utils.py` |
| `Fetcher` | `fetcher.py` |
| `NotificationStore` | the unified record table |
| `SourceBase` | `sources/base.py` |
| `SteamSource` | `sources/steam.py` |
| `EpicSource` | `sources/epic.py` |
| `Notifier` | `notifier.py` |
| `LegacyMain` | `main.py` |

Facts about the code that the model keeps:

- **Seven-day window.** A Steam app last announced exactly seven days ago is still suppressed, because `utils.py:17` tests `past_date + 7 days >= today`. Only eight or more days re-enable it. See `Utils.SteamWindowBoundary` and `SteamSource.SevenDayBoundary`.
- **No error handling.** Nothing in `loop` or `handle_notifications` catches an exception. A failing fetch, lookup or database call leaves the loop and ends the program. The legacy model records such an error in its outcome and stops the cycle there.
- **No store link.** Both adapters build a `Notification` without a store link, so it stays empty.
- **No discount filter.** The Steam adapter keeps every hit the price lookup returns. It does not check the discount.
- **Epic insert.** `sqlite_set_epic_entry` is documented as "set or update", but it runs a plain `INSERT`. It is modelled as written: `Database.SetEpicEntry` fails on an existing title. `LegacyMain.EpicPassFacts` shows that the cycle's eligibility check keeps that failure from ever happening.

## Model

| member | source | states |
|---|---|---|
| Text.NatToStringRoundTrip | src/game_notifier/sources/steam.py:28-29 | reading back the decimal digits of `str(n)` gives `n`, so the digits are the number |
| Text.IntToStringInjective | src/game_notifier/sources/steam.py:28-29 | `str(a) == str(b)` exactly when `a == b`, so keys of different apps never collide |
| Text.SplitJoin | src/main.py:70-72 | re-joining the pieces of `split(',')` with commas gives back the input, and there is one more piece than there are commas |
| Text.Split | src/main.py:70-72 | there is always at least one piece, and no piece contains the separator |
| Text.Strip | src/main.py:70-72 | the result is a contiguous slice of the input, with no whitespace at either end, and everything cut off is whitespace |
| Database.GetSteamGame | src/game_notifier/database.py:13-23 | fails with a missing-table error if `SteamSale` does not exist; otherwise finds a row exactly when the id has one, and returns that row's (id, date) |
| Database.SetOrUpdateSteamGame | src/game_notifier/database.py:26-33 | an upsert: afterwards the id has exactly the given date, the other rows and the Epic table are unchanged, and no other key is added |
| Database.SetOrUpdateSteamGameIdempotent | src/game_notifier/database.py:26-33 | repeating the same upsert changes nothing |
| Database.AddSteamGame | src/game_notifier/database.py:36-42 | a plain insert with today's date; it fails on the primary key when the id already has a row |
| Database.GetEpicEntry | src/game_notifier/database.py:46-56 | fails with a missing-table error if `EpicNotification` does not exist; otherwise finds a row exactly when the title has one |
| Database.SetEpicEntry | src/game_notifier/database.py:59-64 | a plain insert that fails on an existing title, whatever its docstring says; on success exactly one row is added and nothing else changes |
| Database.InitSqliteDb | src/game_notifier/database.py:67-87 | afterwards both tables exist, a table that existed keeps all its rows, and a new table is empty |
| Database.InitSqliteDbIdempotent | src/game_notifier/database.py:67-87 | `CREATE TABLE IF NOT EXISTS` twice is the same as once |
| Utils.IsDateWithinDays | src/game_notifier/utils.py:13-17 | true exactly when the date is at most `delta` days before today; a date today or in the future is always within |
| Utils.WithinDaysMonotone | src/game_notifier/utils.py:13-17 | widening the window never takes a date out of it |
| Utils.SteamShouldNotify | src/game_notifier/utils.py:20-33 | eligible exactly when the id has no row, or its row is more than seven days old; fails if the table is missing |
| Utils.SteamWindowBoundary | src/game_notifier/utils.py:20-33 | seven days ago is still suppressed; eight days ago is eligible |
| Utils.EpicShouldNotify | src/game_notifier/utils.py:36-45 | eligible exactly when the title has no row, whatever its date; fails if the table is missing |
| Fetcher.AnyOfferFree | src/game_notifier/fetcher.py:19-29 | a `True` verdict needs a discounted price of exactly 0 |
| Fetcher.AnyBlockFree | src/game_notifier/fetcher.py:17-30 | a `True` verdict needs a discounted price of exactly 0 |
| Fetcher.IsCurrentlyFree | src/game_notifier/fetcher.py:9-30 | no truthy `promotions`, no `True`; a `True` verdict needs a discounted price of exactly 0 |
| Fetcher.AnyOfferFreeIff | src/game_notifier/fetcher.py:19-29 | the inner loop finds a match exactly when some offer is a PERCENTAGE discount that has started and not ended, at price 0 |
| Fetcher.AnyBlockFreeIff | src/game_notifier/fetcher.py:17-30 | the nested loops find a match exactly when some block holds such an offer |
| Fetcher.IsCurrentlyFreeIff | src/game_notifier/fetcher.py:9-30 | a game is free exactly when it has truthy promotions with an active PERCENTAGE offer and its discounted price is 0 |
| Fetcher.EpicFreeGames | src/game_notifier/fetcher.py:33-53 | there are never more titles than catalogue elements |
| Fetcher.EpicFreeGamesSelection | src/game_notifier/fetcher.py:49-51 | the titles are exactly those of the free elements, in catalogue order |
| NotificationStore.Get | src/game_notifier/sources/steam.py:32-34 | finds a record exactly when (source, key) has one, and returns its date |
| NotificationStore.Set | src/game_notifier/sources/base.py:44-47 | an upsert of (source, key) with the date; every other record is unchanged |
| NotificationStore.GetAfterSet | src/game_notifier/sources/base.py:44-47 | a read right after a write sees that write |
| NotificationStore.SetIdempotent | src/game_notifier/sources/base.py:44-47 | writing the same record twice is the same as once |
| SourceBase.SaveNotified | src/game_notifier/sources/base.py:44-47 | afterwards the adapter's (name, key) reads as today, and no other record changes |
| SourceBase.Poll | src/game_notifier/sources/base.py:49-54 | at most two events per fetched item, and no record is ever dropped |
| SourceBase.PollSelection | src/game_notifier/sources/base.py:49-54 | events come in pairs, one pair per notified item, in fetch order; each pair is the write of that item's key dated today, then its notification; an item is notified exactly when the adapter calls it eligible against the store as it stood when the item was reached |
| SourceBase.PollTraceShape | src/game_notifier/sources/base.py:49-54 | even positions are writes by this adapter dated today; odd positions are notifications |
| SourceBase.PollFrame | src/game_notifier/sources/base.py:49-54 | a record is new or changed only if the poll wrote it; written records belong to this adapter and hold today; all other records are untouched |
| SourceBase.PollDatesNondecreasing | src/game_notifier/sources/base.py:49-54 | when no record is dated after today, dates only move forward, and never past today |
| SourceBase.PollSavesEachKeyOnce | src/game_notifier/sources/base.py:49-54 | for an adapter that refuses keys recorded today, each key is written, and so announced, at most once per poll |
| SteamSource.Fetch | src/game_notifier/sources/steam.py:20-26 | never more hits than wanted ids |
| SteamSource.FetchSelection | src/game_notifier/sources/steam.py:20-26 | the hits are exactly the lookups that found a sale, in wanted-id order |
| SteamSource.ItemKeyIdentifiesApp | src/game_notifier/sources/steam.py:28-29 | two hits share a key exactly when they share an app id |
| SteamSource.ShouldNotify | src/game_notifier/sources/steam.py:31-37 | eligible when there is no record, or the record is more than seven days before today |
| SteamSource.SevenDayBoundary | src/game_notifier/sources/steam.py:31-37 | a record from seven days ago suppresses; one from eight days ago does not |
| SteamSource.ToNotification | src/game_notifier/sources/steam.py:39-43 | the message is, piece by piece, the title, ` is on sale for `, the price, `! (-`, the discount's digits and `%)`; the image is the banner; there is no store link |
| SteamSource.SaleMessageDeterminesSale | src/game_notifier/sources/steam.py:39-43 | for one title, two sale messages are equal exactly when price and discount are, so the text names both unambiguously |
| SteamSource.Adapter | src/game_notifier/sources/steam.py:14-15 | the adapter is named `steam` |
| SteamSource.AdapterSuppressesSameDay | src/game_notifier/sources/steam.py:31-37 | a key recorded today is refused |
| SteamSource.PollAnnouncesEachAppOnce | src/game_notifier/sources/steam.py:20-37 | an app listed twice on the watch list is still announced at most once per poll |
| EpicSource.ShouldNotify | src/game_notifier/sources/epic.py:23-27 | eligible exactly when the title has no record |
| EpicSource.FreeMessage | src/game_notifier/sources/epic.py:29-33 | the message is the title followed by ` is currently free on Epic Games!` |
| EpicSource.FreeMessageRoundTrip | src/game_notifier/sources/epic.py:29-33 | the title can be recovered from the message, so different titles give different messages |
| EpicSource.ToNotification | src/game_notifier/sources/epic.py:29-33 | the message names the item's title; the image is the banner; there is no store link |
| EpicSource.Adapter | src/game_notifier/sources/epic.py:14-15 | the adapter is named `epic` |
| EpicSource.AdapterSuppressesSameDay | src/game_notifier/sources/epic.py:23-27 | a title recorded today is refused |
| EpicSource.RecordedTitleNeverRenotified | src/game_notifier/sources/epic.py:23-27 | once a title has a record, no later poll writes it again or changes its date, whatever is fetched |
| EpicSource.PollAnnouncesEachTitleOnce | src/game_notifier/sources/epic.py:20-27 | a title fetched several times is announced at most once per poll |
| Notifier.SendNtfy | src/game_notifier/notifier.py:13-16 | posts the message to the topic; there is an `Attach` header, holding the image, exactly when an image is given, and it is the only header |
| Notifier.ActiveSources | src/game_notifier/notifier.py:28-32 | Epic is built exactly when enabled; Steam is built exactly when the id list is non-empty; Epic comes first |
| Notifier.RecordsOfDispatch | src/game_notifier/notifier.py:34-37 | handling a trace keeps its writes exactly, in order, and adds none |
| Notifier.LoopIterationRecordsEachSave | src/game_notifier/notifier.py:27-37 | the writes of an iteration are exactly the Epic poll's writes followed by the Steam poll's |
| Notifier.EpicPoll | src/game_notifier/notifier.py:29-30 | with Epic disabled, nothing is polled and the store is untouched |
| Notifier.SteamPoll | src/game_notifier/notifier.py:31-32 | with no watched ids, nothing is polled and the store is untouched |
| Notifier.RunSteamOnly | src/game_notifier/notifier.py:28-37 | with Epic disabled, an iteration is the Steam poll alone |
| Notifier.LoopIterationUnfold | src/game_notifier/notifier.py:27-37 | an iteration is the Epic poll and then the Steam poll on the store Epic left, each event handled in place |
| Notifier.PostsOfDispatch | src/game_notifier/notifier.py:34-37 | the pushes of a handled trace are exactly its notifications, sent in order |
| Notifier.LoopIterationSendsEachYieldOnce | src/game_notifier/notifier.py:27-37 | every yielded notification is pushed exactly once, Epic's before Steam's and each source's in poll order, and nothing else is pushed |
| Notifier.AlternationOfTwoPolls | src/game_notifier/notifier.py:34-37 | after two alternating polls are handled in turn, every push directly follows a write dated today |
| Notifier.LoopIterationWritesBeforeSending | src/game_notifier/notifier.py:34-37 | every push directly follows the write, dated today, of an Epic or Steam key: the record is saved before the push goes out |
| Notifier.LoopIterationTouchesOnlyEnabledSources | src/game_notifier/notifier.py:27-37 | an iteration keeps every record; a record it adds or changes holds today and belongs to a source that was enabled |
| Notifier.SteamWatchListExample | src/game_notifier/notifier.py:27-37 | Epic off, watch list `[100, 200]`, a 20% sale on 100 only, empty store: exactly one push, and the store ends holding only `("steam", "100")` dated today |
| LegacyMain.EpicStepOnTable | src/main.py:26-34 | a title with a row is skipped; any other title is inserted with today's date and then its message is pushed |
| LegacyMain.EpicPassTable | src/main.py:24-34 | the Epic pass does not fail; every old row is kept as it was, and each listed title without a row gets one dated today |
| LegacyMain.EpicPassPairs | src/main.py:24-34 | the Epic pass's effects are insert-then-push pairs, and each push carries the inserted title's message |
| LegacyMain.EpicPassInserted | src/main.py:24-34 | the titles inserted are exactly the listed titles that had no row |
| LegacyMain.EpicPassDistinct | src/main.py:24-34 | no title is inserted twice, even when it is listed twice |
| LegacyMain.EpicPassOrder | src/main.py:26-34 | the inserts come in catalogue order, one per insert-then-push pair: a title's position is picked exactly when the title had no row and is not listed earlier |
| LegacyMain.EpicPassFacts | src/main.py:24-34 | all of the above together; in particular the plain insert never meets an existing title |
| LegacyMain.SteamStepOnTable | src/main.py:37-44 | an id with no sale, or one announced in the last seven days, is skipped; otherwise it is upserted with today's date and the lookup's message is pushed |
| LegacyMain.SteamPassTable | src/main.py:36-44 | the Steam pass does not fail; eligible ids end up dated today, and every other row is kept as it was |
| LegacyMain.SteamPassPairs | src/main.py:36-44 | the Steam pass's effects are upsert-then-push pairs, and each push carries that id's sale message |
| LegacyMain.SteamPassUpserted | src/main.py:36-44 | the ids upserted are exactly the listed ids that have a sale and were eligible against the table as it was before the pass |
| LegacyMain.SteamPassDistinct | src/main.py:36-44 | no id is upserted twice, even when it is listed twice |
| LegacyMain.SteamPassOrder | src/main.py:37-44 | the upserts come in watch-list order, one per upsert-then-push pair: an id's position is picked exactly when it has a sale, was eligible against the table as it stood before the pass, and is not listed earlier |
| LegacyMain.SteamPassFacts | src/main.py:36-44 | all of the above together |
| LegacyMain.PairsConcatOrder | src/main.py:24-44 | when the Epic effects are followed by the Steam effects, all Epic writes come first and every push still directly follows its write |
| LegacyMain.PairsConcatWrites | src/main.py:24-44 | joining the two halves keeps each half's writes and adds none |
| LegacyMain.EpicHalfFacts | src/main.py:24-34 | on an initialised database, the Epic half never fails; it does nothing when Epic is off, and otherwise inserts exactly the free titles that had no row |
| LegacyMain.HandleNotificationsCycleOutcome | src/main.py:15-44 | on an initialised database, the cycle fails exactly when the id list is empty (`steam_game_ids[0]`), and then with an index error; the Epic table is untouched when Epic is off; the Steam table is untouched when the first id is 0 |
| LegacyMain.HandleNotificationsCycleEffects | src/main.py:15-44 | the writes follow the title list and then the id list, front to back, as in `HandleNotificationsCycleOrder`; Epic writes come before Steam writes; every write is directly followed by the push announcing it, and every push directly follows the write it announces (the inserted title's free-game text, or the upserted id's sale message); Epic inserts exactly the free titles without a row when Epic is on; Steam upserts exactly the eligible watched ids with a sale, and none when the first id is 0 |
| LegacyMain.HandleNotificationsCycleOrder | src/main.py:24-44 | the writes are the inserted Epic titles in catalogue order, then the upserted Steam ids in watch-list order, every other effect being a push; which positions are picked is stated as for the two passes, with Epic off picking no title and a first id of 0 picking no id |
| LegacyMain.UninitializedCycleFails | src/main.py:24-28 | before `init`, a cycle with Epic on and a free title fails on its first lookup, having written and pushed nothing |
| LegacyMain.ParseEpicFlagIff | src/main.py:65-69 | the Epic flag is on exactly when the setting spells `true`, `1` or `yes` in any mix of letter case; it is off when the setting is unset |
| LegacyMain.SteamIdFields | src/main.py:70-72 | field i is the stripped i-th comma-separated piece of the setting; there is one field per comma plus one, and no field contains a comma or has whitespace at either end |

## Left out

- HTTP, clocks and sleeping are not modelled. The ntfy POST is a `Notifier.Request` value. The Epic endpoint's response and the current instant are parameters. The Steam price lookup is a function parameter. Both revisions call `fetcher.steam_sale`, but `fetcher.py` does not define it, and the two expect different results: `main.py:38-44` treats the result as a message string, and `sources/steam.py:23-25` treats it as a `SteamSaleHit`. The legacy model takes an optional string, the source layer an optional `SteamSaleHit`. `time.sleep` and the endless `while True` are not modelled: one iteration is modelled, and iterations compose through the store.
- Exceptions from collaborators are not modelled: network errors, JSON errors, and SQLite errors other than a missing table or a duplicate key. In the code nothing catches them, so any of these leaves `loop` or `handle_notifications` and ends the program.
- `database.sqlite_get_notification` and `sqlite_set_notification` are called by `sources/base.py`, `epic.py` and `steam.py`, but they are not defined in `database.py`. The unified store is modelled from how they are called: a get by (source, key) and an upsert of (source, key, date).
- `fetcher.epic_free_games` returns title strings, while `EpicSource` reads `item.title`. As written, `item_key` (src/game_notifier/sources/epic.py:21) raises `AttributeError` on the first free title, so with Epic enabled `loop` ends before any write or push. The source layer is modelled over `EpicGame` values, as the adapter expects. The legacy cycle is modelled over the title strings, as `main.py` uses them.
- Dates are day numbers. Parsing and formatting `YYYY-MM-DD`, and time zones, are not modelled. ISO instants in the Epic offers are integers compared in order.
- Fetcher.IsCurrentlyFree: JSON `null`s that make `fetcher.py` raise cannot be expressed in the model. These are:
  - a `null` inner `promotionalOffers` of an offer block (a `TypeError`, line 19);
  - a `null` `discountSetting` (an `AttributeError`, line 21);
  - a `null` `price` or `totalPrice` once a percentage offer is reached (an `AttributeError`, line 27).

  In the code each of these aborts `epic_free_games`, and with it the whole program. A missing `startDate`, `endDate` or `title` key, which raises a `KeyError`, is not modelled either.
- LegacyMain.ParseEpicFlag: `lower()` folds only ASCII letters here. Python's `str.lower` also folds other Unicode letters, but those cannot change whether the result is `true`, `1` or `yes`.
- LegacyMain.SteamIdFields: stops before `int()`. Parsing a field and the `ValueError` an empty or non-numeric field raises are not modelled. In particular an unset `STEAM_WANTED_GAMES` gives one empty field, which `int()` rejects.
- `main.py`'s `init`, `main` and argv dispatch are not modelled. `.env` loading, `POLL_INTERVAL`, the path helpers in `utils.py` (`todays_date`, `remove_env_from_path`, `is_env_path_valid`), `install.py` and `sources/__init__.py` are glue or filesystem work with no logic of their own to prove. `todays_date` is the `today` parameter.
- Console output (`print`) is not modelled.
- No code in the repository migrates the legacy tables into the unified table, so there is nothing to model.
