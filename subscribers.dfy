/**
 * The subscriber store: the SQLite `users` table keyed by Telegram user id. Each SQL statement
 * is a row operation on a map; the JSON columns hold their lists directly.
 */
module Subscribers {
  import opened Options

  /** One row of `users`, with `keywords` and `price_filters` decoded. `lastSentId` is `None` for NULL. */
  datatype UserRow = UserRow(
    keywords: seq<string>,
    priceFilters: seq<string>,
    priceMin: int,
    notificationsEnabled: int,
    lastSentId: Option<string>)

  /** A row of a table created before `price_filters` existed, with its single nullable `price_filter`. */
  datatype LegacyRow = LegacyRow(
    keywords: seq<string>,
    priceFilter: Option<string>,
    priceMin: int,
    notificationsEnabled: int,
    lastSentId: Option<string>)

  /** What the database file holds when the store is opened. */
  datatype StoredTable =
    | NoTable
    | CurrentTable(rows: map<int, UserRow>)
    | LegacyTable(legacyRows: map<int, LegacyRow>)

  /** The row `add_user` inserts; `price_min` takes its column default. */
  const NewUserRow := UserRow([], ["any"], 0, 0, Some(""))

  /** The migration of one legacy row: a non-empty filter `v` becomes `[v]`, NULL or `''` becomes `[]`. */
  function MigratedRow(r: LegacyRow): (m: UserRow)
    ensures m.priceFilters == if r.priceFilter.Some? && r.priceFilter.value != "" then [r.priceFilter.value] else []
    ensures m.keywords == r.keywords && m.priceMin == r.priceMin
    ensures m.notificationsEnabled == r.notificationsEnabled && m.lastSentId == r.lastSentId
  {
    UserRow(r.keywords, if r.priceFilter.Some? && r.priceFilter.value != "" then [r.priceFilter.value] else [],
            r.priceMin, r.notificationsEnabled, r.lastSentId)
  }

  /** The table once `_create_tables` has run. */
  function Opened(stored: StoredTable): map<int, UserRow> {
    match stored
    case NoTable => map[]
    case CurrentTable(rows) => rows
    case LegacyTable(legacy) => map id | id in legacy :: MigratedRow(legacy[id])
  }

  /** `INSERT OR IGNORE`: a new user gets the default row, an existing row is kept as it is. */
  function InsertOrIgnore(t: map<int, UserRow>, id: int): (r: map<int, UserRow>)
    ensures r.Keys == t.Keys + {id}
    ensures r[id] == if id in t then t[id] else NewUserRow
    ensures forall other | other in t && other != id :: r[other] == t[other]
  {
    if id in t then t else t[id := NewUserRow]
  }

  /** A Python `int` the `sqlite3` module can bind to an INTEGER column: a signed 64-bit value. */
  predicate FitsInteger(v: int) {
    -0x8000_0000_0000_0000 <= v <= 0x7FFF_FFFF_FFFF_FFFF
  }

  /** The `SET` part of one `UPDATE users ... WHERE user_id = ?` statement. */
  datatype Assignment =
    | SetKeywords(keywords: seq<string>)
    | SetPriceFilters(priceFilters: seq<string>, priceMin: int)
    | SetNotifications(enabled: bool)
    | SetLastSentId(lastSentId: string)

  /** The row after the assignment: only the named columns take new values. */
  function Assign(row: UserRow, a: Assignment): (r: UserRow)
    ensures a.SetKeywords? ==> r == row.(keywords := a.keywords)
    ensures a.SetPriceFilters? ==> r == row.(priceFilters := a.priceFilters, priceMin := a.priceMin)
    ensures a.SetNotifications? ==> r == row.(notificationsEnabled := if a.enabled then 1 else 0)
    ensures a.SetLastSentId? ==> r == row.(lastSentId := Some(a.lastSentId))
  {
    match a
    case SetKeywords(ks) => row.(keywords := ks)
    case SetPriceFilters(pf, m) => row.(priceFilters := pf, priceMin := m)
    case SetNotifications(b) => row.(notificationsEnabled := if b then 1 else 0)
    case SetLastSentId(id) => row.(lastSentId := Some(id))
  }

  /** `UPDATE users SET ... WHERE user_id = id`: no row matches an absent user. */
  function Update(t: map<int, UserRow>, id: int, a: Assignment): (r: map<int, UserRow>)
    ensures r.Keys == t.Keys
    ensures id in t ==> r[id] == Assign(t[id], a)
    ensures forall other | other in t && other != id :: r[other] == t[other]
  {
    if id in t then t[id := Assign(t[id], a)] else t
  }

  /** `get_user_settings`: `None` (the empty dict) for an absent user, the decoded row otherwise. */
  function Settings(t: map<int, UserRow>, id: int): (s: Option<UserRow>)
    ensures s.Some? <==> id in t
    ensures s.Some? ==> s.value == t[id]
  {
    if id in t then Some(t[id]) else None
  }

  /** The ids `SELECT * FROM users WHERE notifications_enabled = 1` returns. */
  function EnabledIds(t: map<int, UserRow>): set<int> {
    set id | id in t && t[id].notificationsEnabled == 1
  }

  lemma SomeElement(s: set<int>)
    requires s != {}
    ensures exists y :: y in s
  {
    if forall y :: y !in s {
      assert false;
    }
  }

  /** The user ids of a list of rows. */
  function UserIds(rows: seq<(int, UserRow)>): set<int> {
    if rows == [] then {} else UserIds(rows[..|rows| - 1]) + {rows[|rows| - 1].0}
  }

  /** Every row of the list is the stored row of its user. */
  predicate Stored(t: map<int, UserRow>, rows: seq<(int, UserRow)>) {
    forall i | 0 <= i < |rows| :: rows[i].0 in t && rows[i].1 == t[rows[i].0]
  }

  /** No user appears twice in the list. */
  predicate DistinctUsers(rows: seq<(int, UserRow)>) {
    forall i, j | 0 <= i < j < |rows| :: rows[i].0 != rows[j].0
  }

  /** Every row's user is among the list's user ids. */
  lemma {:induction false} InUserIds(rows: seq<(int, UserRow)>, k: int)
    requires 0 <= k < |rows|
    ensures rows[k].0 in UserIds(rows)
    decreases |rows|
  {
    if k < |rows| - 1 {
      InUserIds(rows[..|rows| - 1], k);
    }
  }

  /** A user no row names is not among the list's user ids. */
  lemma {:induction false} NotInUserIds(rows: seq<(int, UserRow)>, id: int)
    requires forall k | 0 <= k < |rows| :: rows[k].0 != id
    ensures id !in UserIds(rows)
    decreases |rows|
  {
    if rows != [] {
      NotInUserIds(rows[..|rows| - 1], id);
    }
  }

  /** Appending the stored row of a user not yet listed keeps the list stored and duplicate-free. */
  lemma AppendRow(t: map<int, UserRow>, rows: seq<(int, UserRow)>, id: int)
    requires Stored(t, rows) && DistinctUsers(rows) && |rows| == |UserIds(rows)|
    requires id in t && id !in UserIds(rows)
    ensures var r := rows + [(id, t[id])];
      Stored(t, r) && DistinctUsers(r) && UserIds(r) == UserIds(rows) + {id} && |r| == |UserIds(r)|
  {
    var r := rows + [(id, t[id])];
    forall k | 0 <= k < |rows| ensures rows[k].0 != id {
      InUserIds(rows, k);
    }
    assert r[..|r| - 1] == rows;
  }

  /** The table as a mutable object: every method is one SQL statement on `users`. */
  class Database {
    var users: map<int, UserRow>

    /** Opening runs `_create_tables`, migrating every legacy row. */
    constructor Open(stored: StoredTable)
      ensures users == Opened(stored)
    {
      match stored {
        case NoTable =>
          users := map[];
        case CurrentTable(rows) =>
          users := rows;
        case LegacyTable(legacy) =>
          var migrated: map<int, UserRow> := map[];
          var pending := legacy.Keys;
          while pending != {}
            invariant pending <= legacy.Keys
            invariant migrated == map id | id in legacy.Keys - pending :: MigratedRow(legacy[id])
            decreases |pending|
          {
            SomeElement(pending);
            var id :| id in pending;
            migrated := migrated[id := MigratedRow(legacy[id])];
            pending := pending - {id};
          }
          users := migrated;
      }
    }

    method AddUser(id: int)
      modifies this
      ensures users == InsertOrIgnore(old(users), id)
    {
      users := InsertOrIgnore(users, id);
    }

    method UserExists(id: int) returns (exists_: bool)
      ensures exists_ <==> id in users
    {
      exists_ := id in users;
    }

    method GetUserSettings(id: int) returns (settings: Option<UserRow>)
      ensures settings == Settings(users, id)
    {
      settings := Settings(users, id);
    }

    method UpdateKeywords(id: int, keywords: seq<string>)
      modifies this
      ensures users == Update(old(users), id, SetKeywords(keywords))
    {
      users := Update(users, id, SetKeywords(keywords));
    }

    /**
     * `update_price_filters`. Binding a minimum outside SQLite's 64-bit INTEGER raises
     * `OverflowError` before the statement runs, so the table is then left as it was; `stored`
     * says whether the update went through.
     */
    method UpdatePriceFilters(id: int, priceFilters: seq<string>, priceMin: int) returns (stored: bool)
      modifies this
      ensures stored == FitsInteger(priceMin)
      ensures users == if stored then Update(old(users), id, SetPriceFilters(priceFilters, priceMin)) else old(users)
    {
      stored := FitsInteger(priceMin);
      if stored {
        users := Update(users, id, SetPriceFilters(priceFilters, priceMin));
      }
    }

    method ToggleNotifications(id: int, enabled: bool)
      modifies this
      ensures users == Update(old(users), id, SetNotifications(enabled))
    {
      users := Update(users, id, SetNotifications(enabled));
    }

    method UpdateLastSentId(id: int, taskId: string)
      modifies this
      ensures users == Update(old(users), id, SetLastSentId(taskId))
    {
      users := Update(users, id, SetLastSentId(taskId));
    }

    /**
     * The enabled rows with their stored values, each once. SQLite returns them without an
     * `ORDER BY`, so the order is left open.
     */
    method GetUsersWithNotifications() returns (rows: seq<(int, UserRow)>)
      ensures UserIds(rows) == EnabledIds(users)
      ensures |rows| == |EnabledIds(users)|
      ensures Stored(users, rows)
      ensures DistinctUsers(rows)
    {
      var t := users;
      var pending := EnabledIds(t);
      rows := [];
      while pending != {}
        invariant pending <= EnabledIds(t)
        invariant UserIds(rows) == EnabledIds(t) - pending
        invariant |rows| == |UserIds(rows)|
        invariant Stored(t, rows)
        invariant DistinctUsers(rows)
        decreases |pending|
      {
        SomeElement(pending);
        var id :| id in pending;
        AppendRow(t, rows, id);
        rows := rows + [(id, t[id])];
        pending := pending - {id};
      }
    }
  }

  /** After `add_user(u)` the user exists; an existing row is left as it was. */
  lemma InsertOrIgnoreIdempotent(t: map<int, UserRow>, id: int)
    ensures InsertOrIgnore(InsertOrIgnore(t, id), id) == InsertOrIgnore(t, id)
    ensures id in InsertOrIgnore(t, id)
  {
  }

  /** What an update writes, the settings read back. */
  lemma SettingsAfterUpdate(t: map<int, UserRow>, id: int, a: Assignment)
    requires id in t
    ensures Settings(Update(t, id, a), id) == Some(Assign(t[id], a))
    ensures a.SetKeywords? ==> Settings(Update(t, id, a), id).value.keywords == a.keywords
    ensures a.SetPriceFilters? ==> Settings(Update(t, id, a), id).value.priceFilters == a.priceFilters
                                   && Settings(Update(t, id, a), id).value.priceMin == a.priceMin
    ensures a.SetNotifications? ==> (Settings(Update(t, id, a), id).value.notificationsEnabled == 1 <==> a.enabled)
    ensures a.SetLastSentId? ==> Settings(Update(t, id, a), id).value.lastSentId == Some(a.lastSentId)
  {
  }

  /** An update of an absent user changes nothing, and neither does an update of another user's settings read. */
  lemma UpdateElsewhere(t: map<int, UserRow>, id: int, other: int, a: Assignment)
    requires other != id || id !in t
    ensures Settings(Update(t, id, a), other) == Settings(t, other)
  {
  }

  /** A second assignment to the same columns overwrites the first. */
  lemma UpdateLastWriteWins(t: map<int, UserRow>, id: int, a: Assignment, b: Assignment)
    requires a.SetKeywords? == b.SetKeywords? && a.SetPriceFilters? == b.SetPriceFilters?
    requires a.SetNotifications? == b.SetNotifications? && a.SetLastSentId? == b.SetLastSentId?
    ensures Update(Update(t, id, a), id, b) == Update(t, id, b)
  {
  }

  /** The migration maps every legacy row and keeps every user. */
  lemma OpenedLegacy(legacy: map<int, LegacyRow>, id: int)
    requires id in legacy
    ensures id in Opened(LegacyTable(legacy))
    ensures Opened(LegacyTable(legacy))[id].priceFilters
         == if legacy[id].priceFilter.Some? && legacy[id].priceFilter.value != "" then [legacy[id].priceFilter.value] else []
  {
  }
}
