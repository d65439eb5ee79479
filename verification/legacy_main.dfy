/** The older revision of the cycle (`main.py`): Epic free titles, then the
    watched Steam ids, checked against the per-source tables of `Database`
    and pushed with `send_ntfy`. Nothing catches an exception, so one leaves
    the cycle, and the program, at once; the outcome then carries the error
    together with the writes and pushes already done. Also the parsing of the two settings the cycle depends on. */
module LegacyMain {
  import opened Basics
  import opened Text
  import opened Database
  import opened Utils
  import opened Fetcher
  import Notifier
  import EpicSource

  /** What the cycle does, in order. */
  datatype LegacyEffect =
    | EpicInserted(title: string, date: Day)
    | SteamUpserted(gameId: int, date: Day)
    | Sent(request: Notifier.Request)

  datatype CycleError =
    | DatabaseError(error: DbError)
    | IndexError

  datatype Outcome = Outcome(db: Db, effects: seq<LegacyEffect>, error: Option<CycleError>)

  /** Python truthiness of the Steam lookup's message. */
  predicate Truthy(message: Option<string>) {
    message.Some? && message.value != ""
  }

  /** One free Epic title: check, insert with today's day, push. */
  function EpicStep(o: Outcome, title: string, today: Day, topic: string): Outcome {
    match EpicShouldNotify(o.db, title)
    case Err(e) => o.(error := Some(DatabaseError(e)))
    case Ok(eligible) =>
      if !eligible then o
      else
        match SetEpicEntry(o.db, title, today)
        case Err(e) => o.(error := Some(DatabaseError(e)))
        case Ok(db') =>
          Outcome(db', o.effects + [EpicInserted(title, today),
                                    Sent(Notifier.SendNtfy(topic, EpicSource.FreeMessage(title)))], None)
  }

  /** `for game in free_epic_games`, stopping at the first error. */
  function EpicPass(db: Db, titles: seq<string>, today: Day, topic: string): Outcome {
    if |titles| == 0 then Outcome(db, [], None)
    else
      var prev := EpicPass(db, titles[..|titles| - 1], today, topic);
      if prev.error.Some? then prev else EpicStep(prev, titles[|titles| - 1], today, topic)
  }

  /** One watched Steam id: look the sale up, and only if there is one check
      the table, upsert with today's day, and push the lookup's message. */
  function SteamStep(o: Outcome, gameId: int, steamSale: int -> Option<string>, today: Day, topic: string): Outcome {
    var message := steamSale(gameId);
    if !Truthy(message) then o
    else
      match SteamShouldNotify(o.db, gameId, today)
      case Err(e) => o.(error := Some(DatabaseError(e)))
      case Ok(eligible) =>
        if !eligible then o
        else
          match SetOrUpdateSteamGame(o.db, gameId, today)
          case Err(e) => o.(error := Some(DatabaseError(e)))
          case Ok(db') =>
            Outcome(db', o.effects + [SteamUpserted(gameId, today),
                                      Sent(Notifier.SendNtfy(topic, message.value))], None)
  }

  /** `for id in steam_game_ids`, stopping at the first error. */
  function SteamPass(db: Db, ids: seq<int>, steamSale: int -> Option<string>, today: Day, topic: string): Outcome {
    if |ids| == 0 then Outcome(db, [], None)
    else
      var prev := SteamPass(db, ids[..|ids| - 1], steamSale, today, topic);
      if prev.error.Some? then prev else SteamStep(prev, ids[|ids| - 1], steamSale, today, topic)
  }

  /** The Epic half of a cycle: the free titles when Epic is on, nothing otherwise. */
  function EpicHalf(db: Db, topic: string, notifyEpic: bool, catalog: seq<CatalogElement>, now: int, today: Day): Outcome {
    if notifyEpic then EpicPass(db, EpicFreeGames(catalog, now), today, topic) else Outcome(db, [], None)
  }

  /** One iteration of `handle_notifications`. `catalog` is what the Epic
      endpoint returned, `now` the UTC clock, `steamSale` the Steam lookup. */
  function HandleNotificationsCycle(
    db: Db, topic: string, notifyEpic: bool, steamGameIds: seq<int>,
    catalog: seq<CatalogElement>, now: int, steamSale: int -> Option<string>, today: Day): Outcome
  {
    var epic := EpicHalf(db, topic, notifyEpic, catalog, now, today);
    if epic.error.Some? then epic
    else if |steamGameIds| == 0 then epic.(error := Some(IndexError))
    else if steamGameIds[0] == 0 then epic
    else
      var steam := SteamPass(epic.db, steamGameIds, steamSale, today, topic);
      Outcome(steam.db, epic.effects + steam.effects, steam.error)
  }

  /** Effects of an Epic pass: insert-then-push pairs. */
  ghost predicate EpicPairs(effects: seq<LegacyEffect>, topic: string, today: Day) {
    && |effects| % 2 == 0
    && (forall i :: 0 <= i < |effects| ==> (effects[i].Sent? <==> i % 2 == 1))
    && (forall i :: 0 <= i < |effects| && i % 2 == 0 ==> effects[i].EpicInserted? && effects[i].date == today)
    && (forall i :: 0 <= i < |effects| && i % 2 == 1 ==>
          effects[i - 1].EpicInserted? && effects[i] == Sent(Notifier.SendNtfy(topic, EpicSource.FreeMessage(effects[i - 1].title))))
  }

  /** Effects of a Steam pass: upsert-then-push pairs. */
  ghost predicate SteamPairs(effects: seq<LegacyEffect>, steamSale: int -> Option<string>, topic: string, today: Day) {
    && |effects| % 2 == 0
    && (forall i :: 0 <= i < |effects| ==> (effects[i].Sent? <==> i % 2 == 1))
    && (forall i :: 0 <= i < |effects| && i % 2 == 0 ==>
          effects[i].SteamUpserted? && effects[i].date == today && Truthy(steamSale(effects[i].gameId)))
    && (forall i :: 0 <= i < |effects| && i % 2 == 1 ==>
          && effects[i - 1].SteamUpserted? && steamSale(effects[i - 1].gameId).Some?
          && effects[i] == Sent(Notifier.SendNtfy(topic, steamSale(effects[i - 1].gameId).value)))
  }

  /** An Epic step on an existing table, in closed form: a title with a row is
      skipped, any other is inserted with today's day and pushed. */
  lemma EpicStepOnTable(o: Outcome, title: string, today: Day, topic: string)
    requires o.db.epicNotification.Some?
    ensures var t := o.db.epicNotification.value;
      EpicStep(o, title, today, topic) ==
        if title in t then o
        else Outcome(o.db.(epicNotification := Some(t[title := today])),
                     o.effects + [EpicInserted(title, today), Sent(Notifier.SendNtfy(topic, EpicSource.FreeMessage(title)))],
                     None)
  {
  }

  /** The table after an Epic pass: every old row as it was, plus a row dated
      today for every listed title that had none. */
  lemma {:induction false} EpicPassTable(db: Db, titles: seq<string>, today: Day, topic: string)
    requires db.epicNotification.Some?
    ensures var r := EpicPass(db, titles, today, topic);
      var t0 := db.epicNotification.value;
      && r.error.None?
      && r.db.steamSale == db.steamSale
      && r.db.epicNotification.Some?
      && var t := r.db.epicNotification.value;
      && (forall k :: k in t <==> k in t0 || k in titles)
      && (forall k :: k in t ==> t[k] == if k in t0 then t0[k] else today)
  {
    if |titles| > 0 {
      var n := |titles| - 1;
      var prev := EpicPass(db, titles[..n], today, topic);
      EpicPassTable(db, titles[..n], today, topic);
      EpicStepOnTable(prev, titles[n], today, topic);
      assert titles == titles[..n] + [titles[n]];
      assert forall k :: k in titles <==> k in titles[..n] || k == titles[n];
    }
  }

  lemma EpicPairsSnoc(effects: seq<LegacyEffect>, title: string, topic: string, today: Day)
    requires EpicPairs(effects, topic, today)
    ensures EpicPairs(effects + [EpicInserted(title, today), Sent(Notifier.SendNtfy(topic, EpicSource.FreeMessage(title)))], topic, today)
  {
    var fx := effects + [EpicInserted(title, today), Sent(Notifier.SendNtfy(topic, EpicSource.FreeMessage(title)))];
    forall i | 0 <= i < |fx|
      ensures fx[i].Sent? <==> i % 2 == 1
    {
      if i < |effects| {
        assert fx[i] == effects[i];
      }
    }
    forall i | 0 <= i < |fx| && i % 2 == 0
      ensures fx[i].EpicInserted? && fx[i].date == today
    {
      if i < |effects| {
        assert fx[i] == effects[i];
      }
    }
    forall i | 0 <= i < |fx| && i % 2 == 1
      ensures fx[i - 1].EpicInserted? && fx[i] == Sent(Notifier.SendNtfy(topic, EpicSource.FreeMessage(fx[i - 1].title)))
    {
      if i < |effects| {
        assert fx[i] == effects[i] && fx[i - 1] == effects[i - 1];
      }
    }
  }

  /** An Epic pass's effects come as insert-then-push pairs. */
  lemma {:induction false} EpicPassPairs(db: Db, titles: seq<string>, today: Day, topic: string)
    requires db.epicNotification.Some?
    ensures EpicPairs(EpicPass(db, titles, today, topic).effects, topic, today)
  {
    if |titles| > 0 {
      var n := |titles| - 1;
      var prev := EpicPass(db, titles[..n], today, topic);
      EpicPassTable(db, titles[..n], today, topic);
      EpicPassPairs(db, titles[..n], today, topic);
      EpicStepOnTable(prev, titles[n], today, topic);
      if titles[n] !in prev.db.epicNotification.value {
        EpicPairsSnoc(prev.effects, titles[n], topic, today);
      }
    }
  }

  /** An Epic pass inserts exactly the listed titles that had no row. */
  lemma {:induction false} EpicPassInserted(db: Db, titles: seq<string>, today: Day, topic: string)
    requires db.epicNotification.Some?
    ensures var r := EpicPass(db, titles, today, topic);
      forall k :: EpicInserted(k, today) in r.effects <==> k in titles && k !in db.epicNotification.value
  {
    if |titles| > 0 {
      var n := |titles| - 1;
      var x := titles[n];
      var prev := EpicPass(db, titles[..n], today, topic);
      EpicPassTable(db, titles[..n], today, topic);
      EpicPassInserted(db, titles[..n], today, topic);
      EpicStepOnTable(prev, x, today, topic);
      assert titles == titles[..n] + [x];
      assert forall k :: k in titles <==> k in titles[..n] || k == x;
      if x !in prev.db.epicNotification.value {
        var fx := prev.effects + [EpicInserted(x, today), Sent(Notifier.SendNtfy(topic, EpicSource.FreeMessage(x)))];
        forall k
          ensures EpicInserted(k, today) in fx <==> EpicInserted(k, today) in prev.effects || k == x
        {
          assert EpicInserted(k, today) in fx <==>
            EpicInserted(k, today) in prev.effects || EpicInserted(k, today) in fx[|prev.effects|..];
        }
      }
    }
  }

  /** An Epic pass inserts each title at most once. */
  lemma {:induction false} EpicPassDistinct(db: Db, titles: seq<string>, today: Day, topic: string)
    requires db.epicNotification.Some?
    ensures var e := EpicPass(db, titles, today, topic).effects;
      forall i, j :: 0 <= i < j < |e| && e[i].EpicInserted? && e[j].EpicInserted? ==> e[i].title != e[j].title
  {
    if |titles| > 0 {
      var n := |titles| - 1;
      var x := titles[n];
      var prev := EpicPass(db, titles[..n], today, topic);
      EpicPassTable(db, titles[..n], today, topic);
      EpicPassPairs(db, titles[..n], today, topic);
      EpicPassInserted(db, titles[..n], today, topic);
      EpicPassDistinct(db, titles[..n], today, topic);
      EpicStepOnTable(prev, x, today, topic);
      if x !in prev.db.epicNotification.value {
        forall i | 0 <= i < |prev.effects| && prev.effects[i].EpicInserted?
          ensures prev.effects[i].title != x
        {
          assert !prev.effects[i].Sent?;
          assert prev.effects[i] == EpicInserted(prev.effects[i].title, today);
          assert prev.effects[i] in prev.effects;
        }
      }
    }
  }

  /** The Epic pass on an existing `EpicNotification` table never fails: the
      plain insert is reached only for a title the check found absent. It
      inserts, with today's day, exactly the listed titles that had no row,
      each once, pushes each right after its insert, and leaves every old row
      and the Steam table alone. */
  lemma EpicPassFacts(db: Db, titles: seq<string>, today: Day, topic: string)
    requires db.epicNotification.Some?
    ensures var r := EpicPass(db, titles, today, topic);
      var t0 := db.epicNotification.value;
      && r.error.None?
      && r.db.steamSale == db.steamSale
      && r.db.epicNotification.Some?
      && EpicPairs(r.effects, topic, today)
      && (forall k :: EpicInserted(k, today) in r.effects <==> k in titles && k !in t0)
      && (forall i, j :: 0 <= i < j < |r.effects| && r.effects[i].EpicInserted? && r.effects[j].EpicInserted? ==>
            r.effects[i].title != r.effects[j].title)
      && var t := r.db.epicNotification.value;
      && (forall k :: k in t <==> k in t0 || k in titles)
      && (forall k :: k in t ==> t[k] == if k in t0 then t0[k] else today)
  {
    EpicPassTable(db, titles, today, topic);
    EpicPassPairs(db, titles, today, topic);
    EpicPassInserted(db, titles, today, topic);
    EpicPassDistinct(db, titles, today, topic);
  }

  /** The titles an Epic pass inserts: those without a row, each at its first
      occurrence. */
  ghost function EpicPicks(db: Db, titles: seq<string>): seq<int>
    requires db.epicNotification.Some?
  {
    FirstPicks(titles, (k: string) => k !in db.epicNotification.value)
  }

  lemma {:induction false} EpicPassPositions(db: Db, titles: seq<string>, today: Day, topic: string)
    requires db.epicNotification.Some?
    ensures var r := EpicPass(db, titles, today, topic);
      var idx := EpicPicks(db, titles);
      && |r.effects| == 2 * |idx|
      && (forall k :: 0 <= k < |idx| ==> 0 <= idx[k] < |titles| && r.effects[2 * k] == EpicInserted(titles[idx[k]], today))
  {
    if |titles| > 0 {
      var n := |titles| - 1;
      var x := titles[n];
      var prev := EpicPass(db, titles[..n], today, topic);
      EpicPassPositions(db, titles[..n], today, topic);
      EpicPassTable(db, titles[..n], today, topic);
      EpicStepOnTable(prev, x, today, topic);
      var pidx := EpicPicks(db, titles[..n]);
      assert forall k :: 0 <= k < |pidx| ==> titles[..n][pidx[k]] == titles[pidx[k]];
      if x !in prev.db.epicNotification.value {
        assert EpicPicks(db, titles) == pidx + [n];
      } else {
        assert EpicPicks(db, titles) == pidx + [];
      }
    }
  }

  /** An Epic pass writes in catalogue order: an increasing list of title
      positions picks out the inserts, one per push pair, and a position is
      picked iff its title had no row and does not occur earlier in the list. */
  lemma EpicPassOrder(db: Db, titles: seq<string>, today: Day, topic: string) returns (idx: seq<int>)
    requires db.epicNotification.Some?
    ensures var r := EpicPass(db, titles, today, topic);
      var t0 := db.epicNotification.value;
      && Increasing(idx, |titles|)
      && |r.effects| == 2 * |idx|
      && (forall k :: 0 <= k < |idx| ==> r.effects[2 * k] == EpicInserted(titles[idx[k]], today))
      && (forall j :: 0 <= j < |titles| ==> (j in idx <==> titles[j] !in t0 && titles[j] !in titles[..j]))
  {
    idx := EpicPicks(db, titles);
    FirstPicksFacts(titles, (k: string) => k !in db.epicNotification.value);
    EpicPassPositions(db, titles, today, topic);
  }

  /** The watched ids a Steam pass should upsert: listed, with a sale, and
      eligible against the table as it stood before the pass. */
  ghost predicate SteamEligible(g: int, ids: seq<int>, steamSale: int -> Option<string>, t0: map<int, Day>, today: Day) {
    g in ids && Truthy(steamSale(g)) && (g !in t0 || t0[g] + SuppressionDays < today)
  }

  /** A Steam step on an existing table, in closed form: an id without a sale,
      or notified within the last seven days, is skipped; any other is
      upserted with today's day and its message pushed. */
  lemma SteamStepOnTable(o: Outcome, gameId: int, steamSale: int -> Option<string>, today: Day, topic: string)
    requires o.db.steamSale.Some?
    ensures var t := o.db.steamSale.value;
      SteamStep(o, gameId, steamSale, today, topic) ==
        if !Truthy(steamSale(gameId)) || (gameId in t && t[gameId] + SuppressionDays >= today) then o
        else Outcome(o.db.(steamSale := Some(t[gameId := today])),
                     o.effects + [SteamUpserted(gameId, today), Sent(Notifier.SendNtfy(topic, steamSale(gameId).value))],
                     None)
  {
  }

  /** The table after a Steam pass: the eligible ids dated today, every other
      row as it was. */
  lemma {:induction false} SteamPassTable(db: Db, ids: seq<int>, steamSale: int -> Option<string>, today: Day, topic: string)
    requires db.steamSale.Some?
    ensures var r := SteamPass(db, ids, steamSale, today, topic);
      var t0 := db.steamSale.value;
      && r.error.None?
      && r.db.epicNotification == db.epicNotification
      && r.db.steamSale.Some?
      && var t := r.db.steamSale.value;
      && (forall g :: g in t <==> g in t0 || SteamEligible(g, ids, steamSale, t0, today))
      && (forall g :: g in t ==> t[g] == if SteamEligible(g, ids, steamSale, t0, today) then today else t0[g])
  {
    if |ids| > 0 {
      var n := |ids| - 1;
      var x := ids[n];
      var prev := SteamPass(db, ids[..n], steamSale, today, topic);
      SteamPassTable(db, ids[..n], steamSale, today, topic);
      SteamStepOnTable(prev, x, steamSale, today, topic);
      assert ids == ids[..n] + [x];
      assert forall g :: g in ids <==> g in ids[..n] || g == x;
    }
  }

  lemma SteamPairsSnoc(effects: seq<LegacyEffect>, gameId: int, steamSale: int -> Option<string>, topic: string, today: Day)
    requires SteamPairs(effects, steamSale, topic, today)
    requires Truthy(steamSale(gameId))
    ensures SteamPairs(effects + [SteamUpserted(gameId, today), Sent(Notifier.SendNtfy(topic, steamSale(gameId).value))],
                       steamSale, topic, today)
  {
    var fx := effects + [SteamUpserted(gameId, today), Sent(Notifier.SendNtfy(topic, steamSale(gameId).value))];
    forall i | 0 <= i < |fx|
      ensures fx[i].Sent? <==> i % 2 == 1
    {
      if i < |effects| {
        assert fx[i] == effects[i];
      }
    }
    forall i | 0 <= i < |fx| && i % 2 == 0
      ensures fx[i].SteamUpserted? && fx[i].date == today && Truthy(steamSale(fx[i].gameId))
    {
      if i < |effects| {
        assert fx[i] == effects[i];
      }
    }
    forall i | 0 <= i < |fx| && i % 2 == 1
      ensures && fx[i - 1].SteamUpserted? && steamSale(fx[i - 1].gameId).Some?
              && fx[i] == Sent(Notifier.SendNtfy(topic, steamSale(fx[i - 1].gameId).value))
    {
      if i < |effects| {
        assert fx[i] == effects[i] && fx[i - 1] == effects[i - 1];
      }
    }
  }

  /** A Steam pass's effects come as upsert-then-push pairs. */
  lemma {:induction false} SteamPassPairs(db: Db, ids: seq<int>, steamSale: int -> Option<string>, today: Day, topic: string)
    requires db.steamSale.Some?
    ensures SteamPairs(SteamPass(db, ids, steamSale, today, topic).effects, steamSale, topic, today)
  {
    if |ids| > 0 {
      var n := |ids| - 1;
      var x := ids[n];
      var prev := SteamPass(db, ids[..n], steamSale, today, topic);
      SteamPassTable(db, ids[..n], steamSale, today, topic);
      SteamPassPairs(db, ids[..n], steamSale, today, topic);
      SteamStepOnTable(prev, x, steamSale, today, topic);
      var t := prev.db.steamSale.value;
      if Truthy(steamSale(x)) && !(x in t && t[x] + SuppressionDays >= today) {
        SteamPairsSnoc(prev.effects, x, steamSale, topic, today);
      }
    }
  }

  /** A Steam pass upserts exactly the eligible ids. */
  lemma {:induction false} SteamPassUpserted(db: Db, ids: seq<int>, steamSale: int -> Option<string>, today: Day, topic: string)
    requires db.steamSale.Some?
    ensures var r := SteamPass(db, ids, steamSale, today, topic);
      forall g :: SteamUpserted(g, today) in r.effects <==> SteamEligible(g, ids, steamSale, db.steamSale.value, today)
  {
    if |ids| > 0 {
      var n := |ids| - 1;
      var x := ids[n];
      var prev := SteamPass(db, ids[..n], steamSale, today, topic);
      SteamPassTable(db, ids[..n], steamSale, today, topic);
      SteamPassUpserted(db, ids[..n], steamSale, today, topic);
      SteamStepOnTable(prev, x, steamSale, today, topic);
      assert ids == ids[..n] + [x];
      assert forall g :: g in ids <==> g in ids[..n] || g == x;
      var t := prev.db.steamSale.value;
      if Truthy(steamSale(x)) && !(x in t && t[x] + SuppressionDays >= today) {
        var fx := prev.effects + [SteamUpserted(x, today), Sent(Notifier.SendNtfy(topic, steamSale(x).value))];
        forall g
          ensures SteamUpserted(g, today) in fx <==> SteamUpserted(g, today) in prev.effects || g == x
        {
          assert SteamUpserted(g, today) in fx <==>
            SteamUpserted(g, today) in prev.effects || SteamUpserted(g, today) in fx[|prev.effects|..];
        }
      }
    }
  }

  /** A Steam pass upserts each id at most once, even when the list repeats it. */
  lemma {:induction false} SteamPassDistinct(db: Db, ids: seq<int>, steamSale: int -> Option<string>, today: Day, topic: string)
    requires db.steamSale.Some?
    ensures var e := SteamPass(db, ids, steamSale, today, topic).effects;
      forall i, j :: 0 <= i < j < |e| && e[i].SteamUpserted? && e[j].SteamUpserted? ==> e[i].gameId != e[j].gameId
  {
    if |ids| > 0 {
      var n := |ids| - 1;
      var x := ids[n];
      var prev := SteamPass(db, ids[..n], steamSale, today, topic);
      SteamPassTable(db, ids[..n], steamSale, today, topic);
      SteamPassPairs(db, ids[..n], steamSale, today, topic);
      SteamPassUpserted(db, ids[..n], steamSale, today, topic);
      SteamPassDistinct(db, ids[..n], steamSale, today, topic);
      SteamStepOnTable(prev, x, steamSale, today, topic);
      var t := prev.db.steamSale.value;
      if Truthy(steamSale(x)) && !(x in t && t[x] + SuppressionDays >= today) {
        forall i | 0 <= i < |prev.effects| && prev.effects[i].SteamUpserted?
          ensures prev.effects[i].gameId != x
        {
          assert !prev.effects[i].Sent?;
          assert prev.effects[i] == SteamUpserted(prev.effects[i].gameId, today);
          assert prev.effects[i] in prev.effects;
        }
      }
    }
  }

  /** The Steam pass on an existing `SteamSale` table never fails. It upserts,
      with today's day, exactly the listed ids whose lookup found a sale and
      that were eligible against the table as it stood before the pass (no
      row, or a row more than seven days old), each once; it pushes each
      lookup message right after its upsert and leaves every other row and the
      Epic table alone. */
  lemma SteamPassFacts(db: Db, ids: seq<int>, steamSale: int -> Option<string>, today: Day, topic: string)
    requires db.steamSale.Some?
    ensures var r := SteamPass(db, ids, steamSale, today, topic);
      var t0 := db.steamSale.value;
      && r.error.None?
      && r.db.epicNotification == db.epicNotification
      && r.db.steamSale.Some?
      && SteamPairs(r.effects, steamSale, topic, today)
      && (forall g :: SteamUpserted(g, today) in r.effects <==>
            g in ids && Truthy(steamSale(g)) && (g !in t0 || t0[g] + SuppressionDays < today))
      && (forall i, j :: 0 <= i < j < |r.effects| && r.effects[i].SteamUpserted? && r.effects[j].SteamUpserted? ==>
            r.effects[i].gameId != r.effects[j].gameId)
      && var t := r.db.steamSale.value;
      && (forall g :: g in t <==> g in t0 || SteamUpserted(g, today) in r.effects)
      && (forall g :: g in t ==> t[g] == if SteamUpserted(g, today) in r.effects then today else t0[g])
  {
    SteamPassTable(db, ids, steamSale, today, topic);
    SteamPassPairs(db, ids, steamSale, today, topic);
    SteamPassUpserted(db, ids, steamSale, today, topic);
    SteamPassDistinct(db, ids, steamSale, today, topic);
  }

  /** The ids a Steam pass upserts: those with a sale and eligible against
      the table as it stood before the pass, each at its first occurrence. */
  ghost function SteamPicks(db: Db, ids: seq<int>, steamSale: int -> Option<string>, today: Day): seq<int>
    requires db.steamSale.Some?
  {
    var t0 := db.steamSale.value;
    FirstPicks(ids, (g: int) => Truthy(steamSale(g)) && (g !in t0 || t0[g] + SuppressionDays < today))
  }

  lemma {:induction false} SteamPassPositions(db: Db, ids: seq<int>, steamSale: int -> Option<string>, today: Day, topic: string)
    requires db.steamSale.Some?
    ensures var r := SteamPass(db, ids, steamSale, today, topic);
      var idx := SteamPicks(db, ids, steamSale, today);
      && |r.effects| == 2 * |idx|
      && (forall k :: 0 <= k < |idx| ==> 0 <= idx[k] < |ids| && r.effects[2 * k] == SteamUpserted(ids[idx[k]], today))
  {
    if |ids| > 0 {
      var n := |ids| - 1;
      var x := ids[n];
      var t0 := db.steamSale.value;
      var prev := SteamPass(db, ids[..n], steamSale, today, topic);
      SteamPassPositions(db, ids[..n], steamSale, today, topic);
      SteamPassTable(db, ids[..n], steamSale, today, topic);
      SteamStepOnTable(prev, x, steamSale, today, topic);
      var pidx := SteamPicks(db, ids[..n], steamSale, today);
      assert forall k :: 0 <= k < |pidx| ==> ids[..n][pidx[k]] == ids[pidx[k]];
      var t := prev.db.steamSale.value;
      var eligible := Truthy(steamSale(x)) && (x !in t0 || t0[x] + SuppressionDays < today);
      if Truthy(steamSale(x)) && !(x in t && t[x] + SuppressionDays >= today) {
        assert !SteamEligible(x, ids[..n], steamSale, t0, today);
        assert SteamPicks(db, ids, steamSale, today) == pidx + [n];
      } else {
        assert !(eligible && x !in ids[..n]);
        assert SteamPicks(db, ids, steamSale, today) == pidx + [];
      }
    }
  }

  /** A Steam pass writes in watch-list order: an increasing list of id
      positions picks out the upserts, one per push pair, and a position is
      picked iff its id has a sale, was eligible against the table as it stood
      before the pass, and does not occur earlier in the list. */
  lemma SteamPassOrder(db: Db, ids: seq<int>, steamSale: int -> Option<string>, today: Day, topic: string)
    returns (idx: seq<int>)
    requires db.steamSale.Some?
    ensures var r := SteamPass(db, ids, steamSale, today, topic);
      var t0 := db.steamSale.value;
      && Increasing(idx, |ids|)
      && |r.effects| == 2 * |idx|
      && (forall k :: 0 <= k < |idx| ==> r.effects[2 * k] == SteamUpserted(ids[idx[k]], today))
      && (forall j :: 0 <= j < |ids| ==>
            (j in idx <==> Truthy(steamSale(ids[j])) && (ids[j] !in t0 || t0[ids[j]] + SuppressionDays < today)
                           && ids[j] !in ids[..j]))
  {
    var t0 := db.steamSale.value;
    idx := SteamPicks(db, ids, steamSale, today);
    FirstPicksFacts(ids, (g: int) => Truthy(steamSale(g)) && (g !in t0 || t0[g] + SuppressionDays < today));
    SteamPassPositions(db, ids, steamSale, today, topic);
  }

  /** Every push directly follows the write it announces, and carries that
      write's message: an inserted Epic title's free-game text, or an
      upserted Steam id's sale message. */
  ghost predicate PushesAnnounceWrites(e: seq<LegacyEffect>, steamSale: int -> Option<string>, topic: string) {
    forall i :: 0 <= i < |e| && e[i].Sent? ==>
      && i > 0
      && (|| (e[i - 1].EpicInserted? && e[i] == Sent(Notifier.SendNtfy(topic, EpicSource.FreeMessage(e[i - 1].title))))
          || (&& e[i - 1].SteamUpserted? && steamSale(e[i - 1].gameId).Some?
              && e[i] == Sent(Notifier.SendNtfy(topic, steamSale(e[i - 1].gameId).value))))
  }

  /** Every write is directly followed by a push. */
  ghost predicate WritesArePushed(e: seq<LegacyEffect>) {
    forall i :: 0 <= i < |e| && !e[i].Sent? ==> i + 1 < |e| && e[i + 1].Sent?
  }

  /** Joining an Epic pass's effects with a Steam pass's: each push still
      directly follows the write it announces. */
  lemma PairsConcatAnnounce(a: seq<LegacyEffect>, b: seq<LegacyEffect>, steamSale: int -> Option<string>, topic: string, today: Day)
    requires EpicPairs(a, topic, today) && SteamPairs(b, steamSale, topic, today)
    ensures PushesAnnounceWrites(a + b, steamSale, topic)
  {
    var e := a + b;
    var m := |a|;
    assert forall i :: 0 <= i < m ==> e[i] == a[i];
    assert forall i :: m <= i < |e| ==> e[i] == b[i - m];
    forall i | 0 <= i < |e| && e[i].Sent?
      ensures i > 0
      ensures || (e[i - 1].EpicInserted? && e[i] == Sent(Notifier.SendNtfy(topic, EpicSource.FreeMessage(e[i - 1].title))))
              || (&& e[i - 1].SteamUpserted? && steamSale(e[i - 1].gameId).Some?
                  && e[i] == Sent(Notifier.SendNtfy(topic, steamSale(e[i - 1].gameId).value)))
    {
      if i >= m {
        assert b[i - m].Sent?;
      }
    }
  }

  /** Joining an Epic pass's effects with a Steam pass's: each write is still
      directly followed by a push. */
  lemma PairsConcatPushed(a: seq<LegacyEffect>, b: seq<LegacyEffect>, steamSale: int -> Option<string>, topic: string, today: Day)
    requires EpicPairs(a, topic, today) && SteamPairs(b, steamSale, topic, today)
    ensures WritesArePushed(a + b)
  {
    var e := a + b;
    var m := |a|;
    assert forall i :: 0 <= i < m ==> e[i] == a[i];
    assert forall i :: m <= i < |e| ==> e[i] == b[i - m];
    forall i | 0 <= i < |e| && !e[i].Sent?
      ensures i + 1 < |e| && e[i + 1].Sent?
    {
      if i < m {
        assert !a[i].Sent?;
      } else {
        assert !b[i - m].Sent?;
      }
    }
  }

  /** Joining an Epic pass's effects with a Steam pass's: Epic writes come
      first, each write is still directly followed by the push announcing
      it, and each push still directly follows its write. */
  lemma PairsConcatOrder(a: seq<LegacyEffect>, b: seq<LegacyEffect>, steamSale: int -> Option<string>, topic: string, today: Day)
    requires EpicPairs(a, topic, today) && SteamPairs(b, steamSale, topic, today)
    ensures var e := a + b;
      && (forall i, j :: 0 <= i < j < |e| && e[i].SteamUpserted? ==> !e[j].EpicInserted?)
      && PushesAnnounceWrites(e, steamSale, topic)
      && WritesArePushed(e)
  {
    var e := a + b;
    var m := |a|;
    assert forall i :: 0 <= i < m ==> e[i] == a[i];
    assert forall i :: m <= i < |e| ==> e[i] == b[i - m];
    assert forall i :: 0 <= i < m ==> !e[i].SteamUpserted?;
    assert forall i :: m <= i < |e| ==> !e[i].EpicInserted?;
    PairsConcatAnnounce(a, b, steamSale, topic, today);
    PairsConcatPushed(a, b, steamSale, topic, today);
  }

  /** Joining an Epic pass's effects with a Steam pass's keeps each half's
      writes and adds none. */
  lemma PairsConcatWrites(a: seq<LegacyEffect>, b: seq<LegacyEffect>, steamSale: int -> Option<string>, topic: string, today: Day)
    requires EpicPairs(a, topic, today) && SteamPairs(b, steamSale, topic, today)
    ensures forall k, d :: EpicInserted(k, d) in a + b <==> EpicInserted(k, d) in a
    ensures forall g, d :: SteamUpserted(g, d) in a + b <==> SteamUpserted(g, d) in b
  {
    var e := a + b;
    var m := |a|;
    assert forall i :: 0 <= i < m ==> e[i] == a[i];
    assert forall i :: m <= i < |e| ==> e[i] == b[i - m];
    forall k, d
      ensures EpicInserted(k, d) in e <==> EpicInserted(k, d) in a
    {
      if EpicInserted(k, d) in e {
        var i :| 0 <= i < |e| && e[i] == EpicInserted(k, d);
        assert i < m;
      }
    }
    forall g, d
      ensures SteamUpserted(g, d) in e <==> SteamUpserted(g, d) in b
    {
      if SteamUpserted(g, d) in e {
        var i :| 0 <= i < |e| && e[i] == SteamUpserted(g, d);
        assert i >= m;
      }
    }
  }

  lemma EpicHalfFacts(db: Db, topic: string, notifyEpic: bool, catalog: seq<CatalogElement>, now: int, today: Day)
    requires Initialized(db)
    ensures var epic := EpicHalf(db, topic, notifyEpic, catalog, now, today);
      && epic.error.None? && Initialized(epic.db) && epic.db.steamSale == db.steamSale
      && (!notifyEpic ==> epic.db == db)
      && EpicPairs(epic.effects, topic, today)
      && (forall k :: EpicInserted(k, today) in epic.effects <==>
            notifyEpic && k in EpicFreeGames(catalog, now) && k !in db.epicNotification.value)
  {
    if notifyEpic {
      EpicPassFacts(db, EpicFreeGames(catalog, now), today, topic);
    }
  }

  /** The legacy cycle on an initialised database. It fails only when the id
      list is empty (`steam_game_ids[0]` raises), so the plain Epic insert
      never meets an existing title; it leaves both tables in place, the Epic
      one untouched when Epic is off and the Steam one untouched when the
      Steam pass is skipped. */
  lemma HandleNotificationsCycleOutcome(
    db: Db, topic: string, notifyEpic: bool, steamGameIds: seq<int>,
    catalog: seq<CatalogElement>, now: int, steamSale: int -> Option<string>, today: Day)
    requires Initialized(db)
    ensures var r := HandleNotificationsCycle(db, topic, notifyEpic, steamGameIds, catalog, now, steamSale, today);
      && (r.error.Some? <==> |steamGameIds| == 0)
      && (r.error.Some? ==> r.error.value == IndexError)
      && Initialized(r.db)
      && (!notifyEpic ==> r.db.epicNotification == db.epicNotification)
      && (|steamGameIds| == 0 || steamGameIds[0] == 0 ==> r.db.steamSale == db.steamSale)
  {
    var epic := EpicHalf(db, topic, notifyEpic, catalog, now, today);
    EpicHalfFacts(db, topic, notifyEpic, catalog, now, today);
    if |steamGameIds| > 0 && steamGameIds[0] != 0 {
      SteamPassFacts(epic.db, steamGameIds, steamSale, today, topic);
    }
  }

  /** What the legacy cycle writes and pushes. Epic titles are handled before
      Steam ids, each list front to back (`WritesInListOrder`); every write is
      directly followed by the push announcing it (the title's free-game text,
      or the id's sale message); the Epic titles
      inserted are the free ones without a row, and only when Epic is on; the
      Steam ids upserted are the watched ones with a sale that are eligible
      against the table as it stood, and none when the first id is 0. */
  lemma HandleNotificationsCycleEffects(
    db: Db, topic: string, notifyEpic: bool, steamGameIds: seq<int>,
    catalog: seq<CatalogElement>, now: int, steamSale: int -> Option<string>, today: Day)
    returns (epicOrder: seq<int>, steamOrder: seq<int>)
    requires Initialized(db)
    ensures WritesInListOrder(
      HandleNotificationsCycle(db, topic, notifyEpic, steamGameIds, catalog, now, steamSale, today).effects,
      db, notifyEpic, EpicFreeGames(catalog, now), steamGameIds, steamSale, today, epicOrder, steamOrder)
    ensures var e := HandleNotificationsCycle(db, topic, notifyEpic, steamGameIds, catalog, now, steamSale, today).effects;
      && (forall i, j :: 0 <= i < j < |e| && e[i].SteamUpserted? ==> !e[j].EpicInserted?)
      && PushesAnnounceWrites(e, steamSale, topic)
      && WritesArePushed(e)
      && (forall k :: EpicInserted(k, today) in e <==>
            notifyEpic && k in EpicFreeGames(catalog, now) && k !in db.epicNotification.value)
      && (forall g :: SteamUpserted(g, today) in e <==>
            && |steamGameIds| > 0 && steamGameIds[0] != 0
            && g in steamGameIds && Truthy(steamSale(g))
            && (g !in db.steamSale.value || db.steamSale.value[g] + SuppressionDays < today))
  {
    epicOrder, steamOrder := HandleNotificationsCycleOrder(db, topic, notifyEpic, steamGameIds, catalog, now, steamSale, today);
    var epic := EpicHalf(db, topic, notifyEpic, catalog, now, today);
    EpicHalfFacts(db, topic, notifyEpic, catalog, now, today);
    var r := HandleNotificationsCycle(db, topic, notifyEpic, steamGameIds, catalog, now, steamSale, today);
    if |steamGameIds| > 0 && steamGameIds[0] != 0 {
      var steam := SteamPass(epic.db, steamGameIds, steamSale, today, topic);
      SteamPassFacts(epic.db, steamGameIds, steamSale, today, topic);
      assert r.effects == epic.effects + steam.effects;
      PairsConcatOrder(epic.effects, steam.effects, steamSale, topic, today);
      PairsConcatWrites(epic.effects, steam.effects, steamSale, topic, today);
    } else {
      assert r.effects == epic.effects + [];
      PairsConcatOrder(epic.effects, [], steamSale, topic, today);
      PairsConcatWrites(epic.effects, [], steamSale, topic, today);
    }
  }

  /** A cycle's effects are the Epic half's followed by the Steam pass's,
      which runs on the Steam table as it was. */
  lemma CycleEffectsSplit(
    db: Db, topic: string, notifyEpic: bool, steamGameIds: seq<int>,
    catalog: seq<CatalogElement>, now: int, steamSale: int -> Option<string>, today: Day)
    requires Initialized(db)
    ensures var epic := EpicHalf(db, topic, notifyEpic, catalog, now, today);
      var r := HandleNotificationsCycle(db, topic, notifyEpic, steamGameIds, catalog, now, steamSale, today);
      && epic.error.None? && Initialized(epic.db) && epic.db.steamSale == db.steamSale
      && (!notifyEpic ==> epic.effects == [])
      && r.effects == epic.effects +
           if |steamGameIds| > 0 && steamGameIds[0] != 0 then SteamPass(epic.db, steamGameIds, steamSale, today, topic).effects
           else []
  {
    if notifyEpic {
      EpicPassTable(db, EpicFreeGames(catalog, now), today, topic);
    }
  }

  /** Write positions carry over to a concatenation of an Epic and a Steam pass. */
  lemma OrderConcat(a: seq<LegacyEffect>, b: seq<LegacyEffect>, titles: seq<string>, ids: seq<int>,
                    ei: seq<int>, si: seq<int>, today: Day)
    requires Increasing(ei, |titles|) && Increasing(si, |ids|)
    requires |a| == 2 * |ei| && forall k :: 0 <= k < |ei| ==> a[2 * k] == EpicInserted(titles[ei[k]], today)
    requires |b| == 2 * |si| && forall k :: 0 <= k < |si| ==> b[2 * k] == SteamUpserted(ids[si[k]], today)
    ensures |a + b| == 2 * (|ei| + |si|)
    ensures forall k :: 0 <= k < |ei| ==> (a + b)[2 * k] == EpicInserted(titles[ei[k]], today)
    ensures forall k :: 0 <= k < |si| ==> (a + b)[2 * (|ei| + k)] == SteamUpserted(ids[si[k]], today)
  {
    assert forall k :: 0 <= k < |si| ==> (a + b)[2 * (|ei| + k)] == b[2 * k];
  }

  /** The legacy cycle's writes in order: first the inserted Epic titles in
      catalogue order, then the upserted Steam ids in watch-list order, each
      write followed by its push. `epicOrder` and `steamOrder` are the picked
      positions in the free-title list and in the id list; a title is picked
      at its first occurrence when Epic is on and it had no row, an id at its
      first occurrence when the first id is not 0, it has a sale, and it was
      eligible against the table as it stood. */
  ghost predicate WritesInListOrder(
    e: seq<LegacyEffect>, db: Db, notifyEpic: bool, titles: seq<string>, ids: seq<int>,
    steamSale: int -> Option<string>, today: Day, epicOrder: seq<int>, steamOrder: seq<int>)
    requires Initialized(db)
  {
    var te, ts := db.epicNotification.value, db.steamSale.value;
    && Increasing(epicOrder, |titles|)
    && Increasing(steamOrder, |ids|)
    && |e| == 2 * (|epicOrder| + |steamOrder|)
    && (forall k :: 0 <= k < |epicOrder| ==> e[2 * k] == EpicInserted(titles[epicOrder[k]], today))
    && (forall k :: 0 <= k < |steamOrder| ==> e[2 * (|epicOrder| + k)] == SteamUpserted(ids[steamOrder[k]], today))
    && (forall j :: 0 <= j < |titles| ==>
          (j in epicOrder <==> notifyEpic && titles[j] !in te && titles[j] !in titles[..j]))
    && (forall j :: 0 <= j < |ids| ==>
          (j in steamOrder <==> ids[0] != 0 && Truthy(steamSale(ids[j]))
                                && (ids[j] !in ts || ts[ids[j]] + SuppressionDays < today)
                                && ids[j] !in ids[..j]))
  }

  /** The cycle writes in list order (`WritesInListOrder`). */
  lemma HandleNotificationsCycleOrder(
    db: Db, topic: string, notifyEpic: bool, steamGameIds: seq<int>,
    catalog: seq<CatalogElement>, now: int, steamSale: int -> Option<string>, today: Day)
    returns (epicOrder: seq<int>, steamOrder: seq<int>)
    requires Initialized(db)
    ensures WritesInListOrder(
      HandleNotificationsCycle(db, topic, notifyEpic, steamGameIds, catalog, now, steamSale, today).effects,
      db, notifyEpic, EpicFreeGames(catalog, now), steamGameIds, steamSale, today, epicOrder, steamOrder)
  {
    var titles := EpicFreeGames(catalog, now);
    var epic := EpicHalf(db, topic, notifyEpic, catalog, now, today);
    CycleEffectsSplit(db, topic, notifyEpic, steamGameIds, catalog, now, steamSale, today);
    if notifyEpic {
      epicOrder := EpicPassOrder(db, titles, today, topic);
    } else {
      epicOrder := [];
    }
    var b: seq<LegacyEffect> := [];
    if |steamGameIds| > 0 && steamGameIds[0] != 0 {
      b := SteamPass(epic.db, steamGameIds, steamSale, today, topic).effects;
      steamOrder := SteamPassOrder(epic.db, steamGameIds, steamSale, today, topic);
    } else {
      steamOrder := [];
    }
    OrderConcat(epic.effects, b, titles, steamGameIds, epicOrder, steamOrder, today);
  }

  /** Before `init_sqlite_db` has run, a cycle with Epic enabled and at least
      one free title fails on its first lookup, having written and pushed
      nothing. */
  lemma UninitializedCycleFails(
    topic: string, steamGameIds: seq<int>, catalog: seq<CatalogElement>, now: int,
    steamSale: int -> Option<string>, today: Day)
    requires |EpicFreeGames(catalog, now)| > 0
    ensures var r := HandleNotificationsCycle(EmptyDb, topic, true, steamGameIds, catalog, now, steamSale, today);
      r.error == Some(DatabaseError(NoSuchTable(EpicNotificationName))) && r.effects == [] && r.db == EmptyDb
  {
    var titles := EpicFreeGames(catalog, now);
    UninitializedEpicPass(titles, today, topic);
  }

  lemma {:induction false} UninitializedEpicPass(titles: seq<string>, today: Day, topic: string)
    ensures var r := EpicPass(EmptyDb, titles, today, topic);
      && r.effects == [] && r.db == EmptyDb
      && (|titles| > 0 <==> r.error == Some(DatabaseError(NoSuchTable(EpicNotificationName))))
      && (|titles| == 0 <==> r.error.None?)
  {
    if |titles| > 0 {
      UninitializedEpicPass(titles[..|titles| - 1], today, topic);
    }
  }

  /** `EPIC_NOTIFY_FREE_GAMES`: on iff the value, lower-cased, is `true`, `1` or `yes`. */
  function ParseEpicFlag(value: string): bool {
    Lower(value) in ["true", "1", "yes"]
  }

  /** `value` spells `word` (given in lower case) up to ASCII case. */
  predicate SpellsIgnoringCase(value: string, word: string) {
    |value| == |word| && forall i :: 0 <= i < |value| ==> AsciiLower(value[i]) == word[i]
  }

  /** The flag is on exactly for the three words in any mix of case, and off
      for an unset variable. */
  lemma ParseEpicFlagIff(value: string)
    ensures ParseEpicFlag(value) <==>
      SpellsIgnoringCase(value, "true") || SpellsIgnoringCase(value, "1") || SpellsIgnoringCase(value, "yes")
    ensures !ParseEpicFlag("")
  {
    var l := Lower(value);
    if SpellsIgnoringCase(value, "true") { assert l == "true"; }
    if SpellsIgnoringCase(value, "1") { assert l == "1"; }
    if SpellsIgnoringCase(value, "yes") { assert l == "yes"; }
    assert Lower("") == "";
  }

  /** `[id.strip() for id in STEAM_WANTED_GAMES.split(",")]`, before `int()`. */
  function SteamIdFields(value: string): (fields: seq<string>)
    ensures |fields| == |Split(value, ',')| == Occurrences(value, ',') + 1
    ensures forall i :: 0 <= i < |fields| ==> fields[i] == Strip(Split(value, ',')[i])
    ensures forall i :: 0 <= i < |fields| ==>
      && ',' !in fields[i]
      && (|fields[i]| > 0 ==> !IsSpace(fields[i][0]) && !IsSpace(fields[i][|fields[i]| - 1]))
  {
    var pieces := Split(value, ',');
    SplitJoin(value, ',');
    var fields := seq(|pieces|, i requires 0 <= i < |pieces| => Strip(pieces[i]));
    forall i | 0 <= i < |fields|
      ensures ',' !in fields[i]
    {
      StripKeepsAbsent(pieces[i], ',');
    }
    fields
  }
}
