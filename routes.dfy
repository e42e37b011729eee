/**
 * The request rules of the server (server/src/routes.rs). Tables are values
 * (`users` a list of rows, `registered_days` a map keyed by user and date);
 * the clock, the password hasher and the token codec are parameters.
 */
module Routes {
  import opened Wrappers
  import opened Calendar
  import opened Models
  import opened AppErrors
  import opened ServerText

  const InvalidToken := "Invalid token"
  const InvalidData := "Invalid data"
  const UserAlreadyExists := "User already exists"
  const InvalidCredentials := "Invalid credentials"
  const BearerPrefix := "Bearer "

  /** Lifetime of an access token: twelve hours, in seconds. */
  const TokenLifetime: nat := 60 * 60 * 12

  // ---------------------------------------------------------------------------
  // Tokens

  /**
   * `auth_by_token` (lines 30-47) once the token is decoded: the claims are
   * accepted, unchanged, iff the current second is before their expiry.
   */
  function AuthByToken(decoded: Option<UserClaims>, now: nat): (r: Option<UserClaims>)
    ensures r.Some? <==> decoded.Some? && now < decoded.value.exp
    ensures r.Some? ==> r == decoded
  {
    match decoded
    case None => None
    case Some(claims) => if now >= claims.exp then None else Some(claims)
  }

  /** `str::strip_prefix`. */
  function StripPrefix(s: string, prefix: string): (r: Option<string>)
    ensures r.Some? <==> |prefix| <= |s| && s[..|prefix|] == prefix
    ensures r.Some? ==> s == prefix + r.value
  {
    if |prefix| <= |s| && s[..|prefix|] == prefix then Some(s[|prefix|..]) else None
  }

  /** Stripping a prefix that was just prepended gives back the rest. */
  lemma StripPrefixRoundTrip(prefix: string, t: string)
    ensures StripPrefix(prefix + t, prefix) == Some(t)
  {
    assert (prefix + t)[..|prefix|] == prefix;
    assert (prefix + t)[|prefix|..] == t;
  }

  /** `HeaderValue::to_str` succeeds: visible ASCII and tabs only. */
  predicate VisibleAscii(s: string) {
    forall i :: 0 <= i < |s| ==> s[i] == '\t' || (' ' <= s[i] <= '~')
  }

  /**
   * The token extraction of `require_active_user` (lines 54-58): a header
   * that is missing, not text, or not prefixed by "Bearer " gives 401.
   */
  function BearerToken(header: Option<string>): (r: Result<string, AppError>)
    ensures r.Ok? <==> header.Some? && VisibleAscii(header.value) && StripPrefix(header.value, BearerPrefix).Some?
    ensures r.Ok? ==> header.value == BearerPrefix + r.value
    ensures r.Err? ==> r.error == AppError(InvalidToken, Unauthorized)
  {
    if header.None? || !VisibleAscii(header.value) then Err(NewAppError(InvalidToken, Unauthorized))
    else match StripPrefix(header.value, BearerPrefix)
      case None => Err(NewAppError(InvalidToken, Unauthorized))
      case Some(token) => Ok(token)
  }

  /**
   * `require_active_user` (lines 49-68): the request goes on, carrying the
   * claims, only with a bearer token that decodes to unexpired claims;
   * every refusal is the same 401 "Invalid token".
   */
  function RequireActiveUser(header: Option<string>, decode: string -> Option<UserClaims>, now: nat): (r: Result<UserClaims, AppError>)
    ensures r.Ok? <==>
      BearerToken(header).Ok? && decode(BearerToken(header).value).Some? && now < decode(BearerToken(header).value).value.exp
    ensures r.Ok? ==> Some(r.value) == decode(BearerToken(header).value)
    ensures r.Err? ==> r.error == AppError(InvalidToken, Unauthorized)
  {
    match BearerToken(header)
    case Err(e) => Err(e)
    case Ok(token) =>
      match AuthByToken(decode(token), now)
      case Some(claims) => Ok(claims)
      case None => Err(NewAppError(InvalidToken, Unauthorized))
  }

  /** The claims `login` signs (lines 158-164): the user, expiring twelve hours from now. */
  function IssuedClaims(user: UserRow, now: nat): (c: UserClaims)
    ensures c.userId == user.userId && c.username == user.username
    ensures c.exp == now + TokenLifetime
  {
    UserClaims(user.userId, user.username, now + TokenLifetime)
  }

  /** A freshly issued token is accepted exactly during the twelve hours that follow. */
  lemma IssuedTokenLifetime(user: UserRow, issuedAt: nat, now: nat)
    ensures AuthByToken(Some(IssuedClaims(user, issuedAt)), now).Some? <==> now < issuedAt + TokenLifetime
  {
  }

  // ---------------------------------------------------------------------------
  // Users

  /**
   * `select * from users where lower(username) = lower($1)` with
   * `fetch_optional`: the first row whose name matches ignoring case.
   */
  function FindUser(users: seq<UserRow>, username: string): (r: Option<UserRow>)
    ensures r.Some? ==> r.value in users && SameIgnoringCase(r.value.username, username)
    ensures r.None? ==> forall k :: 0 <= k < |users| ==> !SameIgnoringCase(users[k].username, username)
  {
    if users == [] then None
    else if SameIgnoringCase(users[0].username, username) then Some(users[0])
    else FindUser(users[1..], username)
  }

  /**
   * The checks of `register_user` before the insert (lines 89-107): the
   * trimmed username and display name and the untrimmed password must be
   * non-empty (else 403 "Invalid data"), and no user may have the same name
   * ignoring case (else 403 "User already exists"). The result is the
   * trimmed username and display name to store.
   */
  function CheckRegistration(users: seq<UserRow>, req: UserRegisterRequest): (r: Result<(string, string), AppError>)
    ensures Trim(req.username) == [] || Trim(req.displayName) == [] || req.password == [] ==>
      r == Err(AppError(InvalidData, Forbidden))
    ensures Trim(req.username) != [] && Trim(req.displayName) != [] && req.password != [] ==>
      (r.Err? <==> exists k :: 0 <= k < |users| && SameIgnoringCase(users[k].username, Trim(req.username)))
    ensures r.Err? && r.error.message != InvalidData ==> r.error == AppError(UserAlreadyExists, Forbidden)
    ensures (Trim(req.username) != [] && Trim(req.displayName) != [] && req.password != [] &&
             exists k :: 0 <= k < |users| && SameIgnoringCase(users[k].username, Trim(req.username)))
      ==> r == Err(AppError(UserAlreadyExists, Forbidden))
    ensures r.Ok? ==> r.value == (Trim(req.username), Trim(req.displayName))
    ensures r.Ok? ==> forall k :: 0 <= k < |users| ==> !SameIgnoringCase(users[k].username, r.value.0)
  {
    var username := Trim(req.username);
    var displayName := Trim(req.displayName);
    if username == [] || displayName == [] || req.password == [] then
      Err(NewAppError(InvalidData, Forbidden))
    else if FindUser(users, username).Some? then
      Err(NewAppError(UserAlreadyExists, Forbidden))
    else
      Ok((username, displayName))
  }

  /** What the password verifier reports for a stored hash. */
  datatype HashCheck = MalformedHash(reason: string) | Mismatch | Match

  /**
   * `login` (lines 129-181). `verify(password, hash)` is the Argon2 check
   * (a stored hash that does not parse gives its error text) and `encode`
   * the token signer; `now` is the current Unix second.
   */
  function Login(
    users: seq<UserRow>,
    req: UserCredentialsRequest,
    now: nat,
    verify: (string, string) -> HashCheck,
    encode: UserClaims -> Result<string, string>): (r: Result<UserTokenResponse, AppError>)
    ensures Trim(req.username) == [] || req.password == [] ==> r == Err(AppError(InvalidCredentials, Forbidden))
    ensures FindUser(users, Trim(req.username)).None? ==> r == Err(AppError(InvalidCredentials, Forbidden))
    ensures r.Ok? ==>
      && Trim(req.username) != [] && req.password != []
      && FindUser(users, Trim(req.username)).Some?
      && var user := FindUser(users, Trim(req.username)).value;
      && verify(req.password, user.password) == Match
      && encode(IssuedClaims(user, now)) == Ok(r.value.token)
    ensures r.Err? ==> r.error.status == Forbidden || r.error.status == InternalServerError
    ensures r.Err? && r.error.status == Forbidden ==> r.error.message == InvalidCredentials
    ensures Trim(req.username) != [] && req.password != [] && FindUser(users, Trim(req.username)).Some? ==>
      var user := FindUser(users, Trim(req.username)).value;
      match verify(req.password, user.password)
      case Match =>
        (match encode(IssuedClaims(user, now))
         case Ok(token) => r == Ok(UserTokenResponse(token))
         case Err(e) => r == Err(AppError(e, InternalServerError)))
      case Mismatch => r == Err(AppError(InvalidCredentials, Forbidden))
      case MalformedHash(reason) => r == Err(AppError(reason, InternalServerError))
  {
    var username := Trim(req.username);
    if username == [] || req.password == [] then
      Err(NewAppError(InvalidCredentials, Forbidden))
    else match FindUser(users, username)
      case None => Err(NewAppError(InvalidCredentials, Forbidden))
      case Some(user) =>
        match verify(req.password, user.password)
        case MalformedHash(reason) => Err(NewAppError(reason, InternalServerError))
        case Mismatch => Err(NewAppError(InvalidCredentials, Forbidden))
        case Match =>
          match MapToInternalError(encode(IssuedClaims(user, now)), (e: string) => e)
          case Ok(token) => Ok(UserTokenResponse(token))
          case Err(e) => Err(e)
  }

  /** The three refusals of a login are indistinguishable: same status, same text. */
  lemma LoginRefusalsAlike(
    users: seq<UserRow>, req: UserCredentialsRequest, now: nat,
    verify: (string, string) -> HashCheck, encode: UserClaims -> Result<string, string>)
    requires Trim(req.username) != [] && req.password != []
    requires FindUser(users, Trim(req.username)).Some?
    requires verify(req.password, FindUser(users, Trim(req.username)).value.password) == Mismatch
    ensures Login(users, req, now, verify, encode) == Login([], req, now, verify, encode)
  {
  }

  // ---------------------------------------------------------------------------
  // Registered days

  /** The key of `registered_days`: `on conflict (user_id, date)`. */
  type DayKey = (string, Date)

  /** The non-key columns of a `registered_days` row. */
  datatype DayEntry = DayEntry(registeredDayId: string, level: int, comment: Option<string>)

  /** The full row stored under a key. */
  function RowOf(userId: string, date: Date, e: DayEntry): (r: RegisteredDay)
    ensures r.userId == userId && r.date == date
    ensures r.registeredDayId == e.registeredDayId && r.level == e.level && r.comment == e.comment
  {
    RegisteredDay(e.registeredDayId, userId, date, e.level, e.comment)
  }

  /**
   * The upsert of `register_day` (lines 196-199): the key now holds the new
   * level and comment, keeping its row id when it already had one; every
   * other key is untouched.
   */
  function Upsert(table: map<DayKey, DayEntry>, key: DayKey, level: int, comment: Option<string>, newId: string)
    : (r: map<DayKey, DayEntry>)
    ensures key in r && r[key].level == level && r[key].comment == comment
    ensures r[key].registeredDayId == if key in table then table[key].registeredDayId else newId
    ensures forall k :: k != key ==> (k in r <==> k in table)
    ensures forall k :: k != key && k in r ==> r[k] == table[k]
  {
    var id := if key in table then table[key].registeredDayId else newId;
    table[key := DayEntry(id, level, comment)]
  }

  /** Registering the same day twice with the same data is registering it once. */
  lemma UpsertIdempotent(table: map<DayKey, DayEntry>, key: DayKey, level: int, comment: Option<string>, newId: string, otherId: string)
    ensures Upsert(Upsert(table, key, level, comment, newId), key, level, comment, otherId)
         == Upsert(table, key, level, comment, newId)
  {
    var once := Upsert(table, key, level, comment, newId);
    var twice := Upsert(once, key, level, comment, otherId);
    assert twice.Keys == once.Keys;
  }

  /** A later registration of a day overrides an earlier one, keeping the first row id. */
  lemma UpsertLatestWins(table: map<DayKey, DayEntry>, key: DayKey, level1: int, comment1: Option<string>,
                         level2: int, comment2: Option<string>, id1: string, id2: string)
    ensures Upsert(Upsert(table, key, level1, comment1, id1), key, level2, comment2, id2)
         == Upsert(table, key, level2, comment2, id1)
  {
    var first := Upsert(Upsert(table, key, level1, comment1, id1), key, level2, comment2, id2);
    var direct := Upsert(table, key, level2, comment2, id1);
    assert first.Keys == direct.Keys;
  }

  /**
   * `r` is the listing of `userId`'s rows of `year` from `from` on: every
   * row is stored and not before `from`, the dates strictly increase, and
   * every registered day from `from` on is listed.
   */
  ghost predicate ListsFrom(table: map<DayKey, DayEntry>, userId: string, year: int, from: Date, r: seq<RegisteredDay>) {
    && (forall k :: 0 <= k < |r| ==> StoredIn(table, userId, year, r[k]) && !DateLess(r[k].date, from))
    && (forall i, j :: 0 <= i < j < |r| ==> DateLess(r[i].date, r[j].date))
    && (forall date :: Registered(table, userId, year, date) && !DateLess(date, from) ==> Listed(r, date))
  }

  /**
   * The rows of `userId` from `Date(year, m, d)` to the end of `year`, in
   * date order: `get_user_days`'s query restricted to a suffix of the year.
   */
  function DaysFrom(table: map<DayKey, DayEntry>, userId: string, year: int, m: int, d: int): (r: seq<RegisteredDay>)
    requires 1 <= m <= 13 && 1 <= d
    ensures ListsFrom(table, userId, year, Date(year, m, d), r)
    decreases 13 - m, 32 - d
  {
    if m == 13 then []
    else if d > DaysInMonth(year, m) then
      var rest := DaysFrom(table, userId, year, m + 1, 1);
      NextMonthListing(table, userId, year, m, d, rest);
      rest
    else
      var rest := DaysFrom(table, userId, year, m, d + 1);
      if (userId, Date(year, m, d)) in table then
        var r := [RowOf(userId, Date(year, m, d), table[(userId, Date(year, m, d))])] + rest;
        PrependRow(table, userId, year, Date(year, m, d), rest, r);
        r
      else
        NextDayListing(table, userId, year, m, d, rest);
        rest
  }

  /** Past the last day of month `m`, the listing from the next month's first day is the same. */
  lemma NextMonthListing(table: map<DayKey, DayEntry>, userId: string, year: int, m: int, d: int, rest: seq<RegisteredDay>)
    requires 1 <= m <= 12 && d > DaysInMonth(year, m)
    requires ListsFrom(table, userId, year, Date(year, m + 1, 1), rest)
    ensures ListsFrom(table, userId, year, Date(year, m, d), rest)
  {
  }

  /** With no row on `Date(year, m, d)`, the listing from the next day is the same. */
  lemma NextDayListing(table: map<DayKey, DayEntry>, userId: string, year: int, m: int, d: int, rest: seq<RegisteredDay>)
    requires (userId, Date(year, m, d)) !in table
    requires ListsFrom(table, userId, year, Date(year, m, d + 1), rest)
    ensures ListsFrom(table, userId, year, Date(year, m, d), rest)
  {
  }

  /** The row of `date` in front of the listing from the next day is the listing from `date`. */
  lemma PrependRow(table: map<DayKey, DayEntry>, userId: string, year: int, date: Date, rest: seq<RegisteredDay>, r: seq<RegisteredDay>)
    requires date.year == year && ValidDate(date) && (userId, date) in table
    requires ListsFrom(table, userId, year, Date(year, date.month, date.day + 1), rest)
    requires r == [RowOf(userId, date, table[(userId, date)])] + rest
    ensures ListsFrom(table, userId, year, date, r)
  {
    assert forall k :: 0 < k < |r| ==> r[k] == rest[k - 1];
    forall date' | Listed(rest, date')
      ensures Listed(r, date')
    {
      var k :| 0 <= k < |rest| && rest[k].date == date';
      assert r[k + 1].date == date';
    }
    assert r[0].date == date;
  }

  /** `row` is the stored row of `userId` for a date of `year`. */
  ghost predicate StoredIn(table: map<DayKey, DayEntry>, userId: string, year: int, row: RegisteredDay) {
    && row.userId == userId
    && row.date.year == year
    && ValidDate(row.date)
    && (userId, row.date) in table
    && row == RowOf(userId, row.date, table[(userId, row.date)])
  }

  /** `userId` registered `date`, a date of `year`. */
  ghost predicate Registered(table: map<DayKey, DayEntry>, userId: string, year: int, date: Date) {
    (userId, date) in table && ValidDate(date) && date.year == year
  }

  /** Some row of `rows` is dated `date`. */
  ghost predicate Listed(rows: seq<RegisteredDay>, date: Date) {
    exists k :: 0 <= k < |rows| && rows[k].date == date
  }

  /**
   * `get_user_days` (lines 211-226): the user's rows of the year, `order by
   * date`. Every row listed is stored, every stored day of the year is
   * listed, and the dates strictly increase.
   */
  function UserDays(table: map<DayKey, DayEntry>, userId: string, year: int): (r: seq<RegisteredDay>)
    ensures forall k :: 0 <= k < |r| ==> StoredIn(table, userId, year, r[k])
    ensures forall i, j :: 0 <= i < j < |r| ==> DateLess(r[i].date, r[j].date)
    ensures forall date :: Registered(table, userId, year, date) ==> Listed(r, date)
  {
    DaysFrom(table, userId, year, 1, 1)
  }

  // ---------------------------------------------------------------------------
  // The tables and the two handlers that write them

  /** No row of `users` has the id `id`. */
  ghost predicate IdUnused(users: seq<UserRow>, id: string) {
    forall k :: 0 <= k < |users| ==> users[k].userId != id
  }

  /** `row` can join `users`: its id is new and no user has its name ignoring case. */
  ghost predicate Admissible(users: seq<UserRow>, row: UserRow) {
    forall k :: 0 <= k < |users| ==> users[k].userId != row.userId && !SameIgnoringCase(users[k].username, row.username)
  }

  /**
   * The users table as the inserts built it: each row was admissible among
   * the rows before it (the primary key and the case-insensitive check).
   */
  ghost predicate DistinctUsers(users: seq<UserRow>)
    decreases |users|
  {
    users == [] || (DistinctUsers(users[..|users| - 1]) && Admissible(users[..|users| - 1], users[|users| - 1]))
  }

  /** Distinct users: no two rows share an id or a name ignoring case. */
  lemma {:induction false} DistinctUsersPairwise(users: seq<UserRow>)
    requires DistinctUsers(users)
    ensures forall i, j :: 0 <= i < j < |users| ==>
      users[i].userId != users[j].userId && !SameIgnoringCase(users[i].username, users[j].username)
    decreases |users|
  {
    if users != [] {
      var init := users[..|users| - 1];
      DistinctUsersPairwise(init);
      forall i, j | 0 <= i < j < |users|
        ensures users[i].userId != users[j].userId && !SameIgnoringCase(users[i].username, users[j].username)
      {
        assert users[i] == init[i];
        if j < |init| {
          assert users[j] == init[j];
        }
      }
    }
  }

  /** Appending a user that passed the registration checks, under a fresh id, keeps the users distinct. */
  lemma NewUserKeepsDistinct(users: seq<UserRow>, req: UserRegisterRequest, row: UserRow, valid: bool)
    requires valid ==> DistinctUsers(users)
    requires IdUnused(users, row.userId)
    requires CheckRegistration(users, req) == Ok((row.username, row.displayName))
    ensures valid ==> DistinctUsers(users + [row])
  {
    var all := users + [row];
    assert all[..|all| - 1] == users;
    assert all[|all| - 1] == row;
  }

  /** Only existing dates are registered. */
  ghost predicate ValidKeys(table: map<DayKey, DayEntry>) {
    forall k :: k in table ==> ValidDate(k.1)
  }

  /** The `users` and `registered_days` tables. */
  class Database {
    var users: seq<UserRow>
    var registeredDays: map<DayKey, DayEntry>

    /**
     * What the tables keep: user ids are distinct, no two usernames are the
     * same ignoring case, and only existing dates are registered.
     */
    ghost predicate Valid()
      reads this
    {
      && DistinctUsers(users)
      && ValidKeys(registeredDays)
    }

    constructor ()
      ensures users == [] && registeredDays == map[] && Valid()
    {
      users := [];
      registeredDays := map[];
    }

    /**
     * `register_user` (lines 85-127): after the checks, insert the user with
     * the trimmed names and the password hash, and answer with the id, the
     * username and the display name only. `newId` is the id the database
     * generates and `hash` the salted Argon2 hash of the password.
     */
    method RegisterUser(req: UserRegisterRequest, newId: string, hash: string) returns (r: Result<UserApiResponse, AppError>)
      requires IdUnused(users, newId)
      modifies this`users
      ensures match CheckRegistration(old(users), req)
        case Err(e) => r == Err(e) && users == old(users)
        case Ok((username, displayName)) =>
          && users == old(users) + [UserRow(newId, username, hash, displayName)]
          && r == Ok(UserApiResponse(newId, username, displayName))
      ensures old(Valid()) ==> Valid()
    {
      ghost var distinct := DistinctUsers(users);
      ghost var keys := ValidKeys(registeredDays);
      match CheckRegistration(users, req) {
        case Err(e) =>
          r := Err(e);
        case Ok((username, displayName)) =>
          var row := UserRow(newId, username, hash, displayName);
          NewUserKeepsDistinct(users, req, row, distinct);
          users := users + [row];
          r := Ok(UserApiResponse(newId, username, displayName));
      }
      assert distinct ==> DistinctUsers(users);
      assert keys == ValidKeys(registeredDays);
    }

    /**
     * `register_day` (lines 183-209) for the authenticated `claims`: a date
     * in a year after `currentYear` is refused with 403 "Invalid data";
     * otherwise the day is upserted and the answer is `true`.
     */
    method RegisterDay(claims: UserClaims, req: DayRegisterRequest, currentYear: int, newId: string)
      returns (r: Result<bool, AppError>)
      modifies this
      ensures users == old(users)
      ensures req.date.year > currentYear ==>
        r == Err(AppError(InvalidData, Forbidden)) && registeredDays == old(registeredDays)
      ensures req.date.year <= currentYear ==>
        r == Ok(true)
        && registeredDays == Upsert(old(registeredDays), (claims.userId, req.date), req.level, req.comment, newId)
      ensures old(Valid()) ==> Valid()
    {
      if req.date.year > currentYear {
        return Err(NewAppError(InvalidData, Forbidden));
      }
      registeredDays := Upsert(registeredDays, (claims.userId, req.date), req.level, req.comment, newId);
      return Ok(true);
    }
  }

  // ---------------------------------------------------------------------------
  // The leaderboard query

  /** `sum(case when level >= 1 then 1 else 0 end)`. */
  function DrinkDays(rows: seq<RegisteredDay>): (n: nat)
    ensures n <= |rows|
  {
    if rows == [] then 0
    else (if rows[0].level >= 1 then 1 else 0) + DrinkDays(rows[1..])
  }

  /** The group of one user: their drink days and registered days of the year. */
  function GroupOf(table: map<DayKey, DayEntry>, user: UserRow, year: int): (g: LeaderboardRow)
    ensures g.userId == user.userId && g.displayName == user.displayName
    ensures 0 <= g.drinkDays <= g.totalDays
  {
    var days := UserDays(table, user.userId, year);
    LeaderboardRow(user.userId, user.displayName, DrinkDays(days), |days|)
  }

  /** The dates of `rows`, only those with a level of at least 1 when `drinking`. */
  ghost function DatesOf(rows: seq<RegisteredDay>, drinking: bool): set<Date> {
    set k | 0 <= k < |rows| && (!drinking || rows[k].level >= 1) :: rows[k].date
  }

  /** The dates `userId` registered in `year`, only those with a level of at least 1 when `drinking`. */
  ghost function RegisteredDates(table: map<DayKey, DayEntry>, userId: string, year: int, drinking: bool): set<Date> {
    set key | key in table && key.0 == userId && ValidDate(key.1) && key.1.year == year
      && (!drinking || table[key].level >= 1) :: key.1
  }

  /** The dates of rows with a first row: that row's date, when it counts, and the dates of the rest. */
  lemma DatesOfCons(rows: seq<RegisteredDay>, drinking: bool)
    requires rows != []
    ensures DatesOf(rows, drinking) ==
      (if !drinking || rows[0].level >= 1 then {rows[0].date} else {}) + DatesOf(rows[1..], drinking)
  {
    var tail := rows[1..];
    forall d | d in DatesOf(rows, drinking)
      ensures d in (if !drinking || rows[0].level >= 1 then {rows[0].date} else {}) + DatesOf(tail, drinking)
    {
      var k :| 0 <= k < |rows| && (!drinking || rows[k].level >= 1) && rows[k].date == d;
      if k > 0 {
        assert tail[k - 1] == rows[k];
      }
    }
    forall d | d in DatesOf(tail, drinking) ensures d in DatesOf(rows, drinking) {
      var k :| 0 <= k < |tail| && (!drinking || tail[k].level >= 1) && tail[k].date == d;
      assert rows[k + 1] == tail[k];
    }
  }

  /** Rows with strictly increasing dates have as many dates as rows, and as many drinking dates as drink days. */
  lemma {:induction false} CountDates(rows: seq<RegisteredDay>)
    requires forall i, j :: 0 <= i < j < |rows| ==> DateLess(rows[i].date, rows[j].date)
    ensures |DatesOf(rows, false)| == |rows|
    ensures |DatesOf(rows, true)| == DrinkDays(rows)
  {
    if rows != [] {
      var tail := rows[1..];
      assert forall i, j :: 0 <= i < j < |tail| ==> DateLess(tail[i].date, tail[j].date) by {
        forall i, j | 0 <= i < j < |tail| ensures DateLess(tail[i].date, tail[j].date) {
          assert tail[i] == rows[i + 1] && tail[j] == rows[j + 1];
        }
      }
      CountDates(tail);
      FirstDateNew(rows);
      CountCons(rows);
    }
  }

  /** With strictly increasing dates, the first date is not among the rest. */
  lemma FirstDateNew(rows: seq<RegisteredDay>)
    requires rows != []
    requires forall i, j :: 0 <= i < j < |rows| ==> DateLess(rows[i].date, rows[j].date)
    ensures rows[0].date !in DatesOf(rows[1..], false)
  {
    var tail := rows[1..];
    forall d | d in DatesOf(tail, false) ensures d != rows[0].date {
      var k :| 0 <= k < |tail| && tail[k].date == d;
      assert DateLess(rows[0].date, rows[k + 1].date);
    }
  }

  /** A first date not among the rest counts once more, and once more among drinking dates when its level counts. */
  lemma CountCons(rows: seq<RegisteredDay>)
    requires rows != [] && rows[0].date !in DatesOf(rows[1..], false)
    ensures |DatesOf(rows, false)| == 1 + |DatesOf(rows[1..], false)|
    ensures |DatesOf(rows, true)| == (if rows[0].level >= 1 then 1 else 0) + |DatesOf(rows[1..], true)|
  {
    var tail := rows[1..];
    assert DatesOf(tail, true) <= DatesOf(tail, false);
    DatesOfCons(rows, false);
    DatesOfCons(rows, true);
  }

  /**
   * The counts of the query for one user: total days is the number of days
   * the user registered in the year, drink days the number of those with a
   * level of at least 1.
   */
  lemma GroupCounts(table: map<DayKey, DayEntry>, user: UserRow, year: int)
    ensures GroupOf(table, user, year).totalDays == |RegisteredDates(table, user.userId, year, false)|
    ensures GroupOf(table, user, year).drinkDays == |RegisteredDates(table, user.userId, year, true)|
  {
    var days := UserDays(table, user.userId, year);
    CountDates(days);
    forall drinking: bool
      ensures DatesOf(days, drinking) == RegisteredDates(table, user.userId, year, drinking)
    {
      forall d | d in DatesOf(days, drinking) ensures d in RegisteredDates(table, user.userId, year, drinking) {
        var k :| 0 <= k < |days| && (!drinking || days[k].level >= 1) && days[k].date == d;
        assert StoredIn(table, user.userId, year, days[k]);
        assert (user.userId, d) in table;
      }
      forall d | d in RegisteredDates(table, user.userId, year, drinking) ensures d in DatesOf(days, drinking) {
        assert Registered(table, user.userId, year, d);
        var k :| 0 <= k < |days| && days[k].date == d;
        assert StoredIn(table, user.userId, year, days[k]);
      }
    }
  }

  /** No two entries share a user id. */
  ghost predicate DistinctIds(gs: seq<LeaderboardRow>) {
    forall i, j :: 0 <= i < j < |gs| ==> gs[i].userId != gs[j].userId
  }

  /** No two users share an id. */
  ghost predicate DistinctUserIds(users: seq<UserRow>) {
    forall i, j :: 0 <= i < j < |users| ==> users[i].userId != users[j].userId
  }

  /** The group of each user, in the order of `users`. */
  function AllGroups(users: seq<UserRow>, table: map<DayKey, DayEntry>, year: int): (gs: seq<LeaderboardRow>)
    ensures |gs| == |users|
    ensures forall i :: 0 <= i < |users| ==> gs[i] == GroupOf(table, users[i], year)
  {
    seq(|users|, i requires 0 <= i < |users| => GroupOf(table, users[i], year))
  }

  /** The groups that have at least one day: the inner join drops the others. */
  function NonEmptyGroups(gs: seq<LeaderboardRow>): (r: seq<LeaderboardRow>)
    ensures forall k :: 0 <= k < |r| ==> r[k].totalDays >= 1 && r[k] in gs
    ensures forall g :: g in gs && g.totalDays >= 1 ==> g in r
  {
    if gs == [] then []
    else
      var rest := NonEmptyGroups(gs[1..]);
      assert forall g :: g in gs && g != gs[0] ==> g in gs[1..];
      if gs[0].totalDays >= 1 then [gs[0]] + rest else rest
  }

  /** Dropping groups keeps the user ids distinct. */
  lemma {:induction false} NonEmptyKeepsDistinct(gs: seq<LeaderboardRow>)
    requires DistinctIds(gs)
    ensures DistinctIds(NonEmptyGroups(gs))
  {
    if gs != [] {
      var tail := gs[1..];
      assert DistinctIds(tail);
      NonEmptyKeepsDistinct(tail);
      var rest := NonEmptyGroups(tail);
      forall k | 0 <= k < |rest| ensures rest[k].userId != gs[0].userId {
        var i :| 0 <= i < |tail| && tail[i] == rest[k];
        assert gs[i + 1] == rest[k];
      }
    }
  }

  /** `g` is the group of one of `users`. */
  ghost predicate GroupOfSomeUser(users: seq<UserRow>, table: map<DayKey, DayEntry>, year: int, g: LeaderboardRow) {
    exists i :: 0 <= i < |users| && g == GroupOf(table, users[i], year)
  }

  /**
   * The join and `group by` of lines 238-243: one group per user with at
   * least one registered day in the year, in the order of `users`.
   */
  function Groups(users: seq<UserRow>, table: map<DayKey, DayEntry>, year: int): (gs: seq<LeaderboardRow>)
    ensures forall k :: 0 <= k < |gs| ==> gs[k].totalDays >= 1 && 0 <= gs[k].drinkDays <= gs[k].totalDays
    ensures forall k :: 0 <= k < |gs| ==> GroupOfSomeUser(users, table, year, gs[k])
    ensures forall i :: 0 <= i < |users| && GroupOf(table, users[i], year).totalDays >= 1 ==>
      GroupOf(table, users[i], year) in gs
    ensures DistinctUserIds(users) ==> DistinctIds(gs)
  {
    var all := AllGroups(users, table, year);
    var gs := NonEmptyGroups(all);
    assert DistinctUserIds(users) ==> DistinctIds(gs) by {
      if DistinctUserIds(users) {
        assert DistinctIds(all);
        NonEmptyKeepsDistinct(all);
      }
    }
    forall k | 0 <= k < |gs|
      ensures 0 <= gs[k].drinkDays <= gs[k].totalDays
      ensures GroupOfSomeUser(users, table, year, gs[k])
    {
      var i :| 0 <= i < |all| && all[i] == gs[k];
    }
    forall i | 0 <= i < |users| && GroupOf(table, users[i], year).totalDays >= 1
      ensures GroupOf(table, users[i], year) in gs
    {
      assert all[i] in all;
    }
    gs
  }

  /** Code-point order of strings, the shorter prefix first. */
  predicate StrLe(a: string, b: string) {
    a == [] || (b != [] && (a[0] < b[0] || (a[0] == b[0] && StrLe(a[1..], b[1..]))))
  }

  lemma {:induction false} StrLeTotal(a: string, b: string)
    ensures StrLe(a, b) || StrLe(b, a)
  {
    if a != [] && b != [] && a[0] == b[0] {
      StrLeTotal(a[1..], b[1..]);
    }
  }

  lemma {:induction false} StrLeTransitive(a: string, b: string, c: string)
    requires StrLe(a, b) && StrLe(b, c)
    ensures StrLe(a, c)
  {
    if a != [] && b != [] && c != [] && a[0] == b[0] && b[0] == c[0] {
      StrLeTransitive(a[1..], b[1..], c[1..]);
    }
  }

  /** `order by drink_days desc, users.display_name asc`: `a` may come before `b`. */
  predicate RankedBefore(a: LeaderboardRow, b: LeaderboardRow) {
    a.drinkDays > b.drinkDays || (a.drinkDays == b.drinkDays && StrLe(a.displayName, b.displayName))
  }

  ghost predicate Ranked(rows: seq<LeaderboardRow>) {
    forall i, j :: 0 <= i < j < |rows| ==> RankedBefore(rows[i], rows[j])
  }

  lemma RankedTotal(a: LeaderboardRow, b: LeaderboardRow)
    ensures RankedBefore(a, b) || RankedBefore(b, a)
  {
    StrLeTotal(a.displayName, b.displayName);
  }

  lemma RankedTransitive(a: LeaderboardRow, b: LeaderboardRow, c: LeaderboardRow)
    requires RankedBefore(a, b) && RankedBefore(b, c)
    ensures RankedBefore(a, c)
  {
    if a.drinkDays == b.drinkDays == c.drinkDays {
      StrLeTransitive(a.displayName, b.displayName, c.displayName);
    }
  }

  /** Insert one row into a ranked list, before the first row it ranks before. */
  function InsertRanked(x: LeaderboardRow, rows: seq<LeaderboardRow>): (r: seq<LeaderboardRow>)
    requires Ranked(rows)
    ensures multiset(r) == multiset(rows) + multiset{x}
    ensures Ranked(r)
  {
    if rows == [] then [x]
    else if RankedBefore(x, rows[0]) then
      assert forall j :: 0 <= j < |rows| ==> RankedBefore(x, rows[j]) by {
        forall j | 0 < j < |rows|
          ensures RankedBefore(x, rows[j])
        {
          RankedTransitive(x, rows[0], rows[j]);
        }
      }
      [x] + rows
    else
      RankedTotal(x, rows[0]);
      var rest := InsertRanked(x, rows[1..]);
      assert multiset(rows) == multiset{rows[0]} + multiset(rows[1..]) by {
        assert rows == [rows[0]] + rows[1..];
      }
      InsertAfterHead(x, rows, rest);
      [rows[0]] + rest
  }

  lemma InsertAfterHead(x: LeaderboardRow, rows: seq<LeaderboardRow>, rest: seq<LeaderboardRow>)
    requires rows != [] && Ranked(rows) && RankedBefore(rows[0], x)
    requires multiset(rest) == multiset(rows[1..]) + multiset{x} && Ranked(rest)
    ensures Ranked([rows[0]] + rest)
  {
    var r := [rows[0]] + rest;
    forall j | 0 < j < |r|
      ensures RankedBefore(rows[0], r[j])
    {
      assert r[j] == rest[j - 1];
      assert r[j] in multiset(rest);
      if r[j] != x {
        assert r[j] in multiset(rows[1..]);
        var k :| 0 <= k < |rows[1..]| && rows[1..][k] == r[j];
        assert rows[k + 1] == r[j];
      }
    }
  }

  /** The `order by` of line 244 as an insertion sort. */
  function RankRows(rows: seq<LeaderboardRow>): (r: seq<LeaderboardRow>)
    ensures multiset(r) == multiset(rows)
    ensures Ranked(r)
  {
    if rows == [] then []
    else
      assert rows == [rows[0]] + rows[1..];
      InsertRanked(rows[0], RankRows(rows[1..]))
  }

  /**
   * `get_leaderboard` (lines 228-252): one row per user who registered a day
   * of the year, with drink days counting the levels of at least 1 and total
   * days counting all rows, ranked by drink days then display name.
   */
  function GetLeaderboard(users: seq<UserRow>, table: map<DayKey, DayEntry>, year: int): (r: seq<LeaderboardRow>)
    ensures Ranked(r)
    ensures multiset(r) == multiset(Groups(users, table, year))
    ensures forall k :: 0 <= k < |r| ==> 0 <= r[k].drinkDays <= r[k].totalDays && 1 <= r[k].totalDays
  {
    var gs := Groups(users, table, year);
    var r := RankRows(gs);
    PermutedCounts(gs, r);
    r
  }

  /** Reordering rows keeps every row's counts. */
  lemma PermutedCounts(gs: seq<LeaderboardRow>, r: seq<LeaderboardRow>)
    requires multiset(r) == multiset(gs)
    requires forall k :: 0 <= k < |gs| ==> gs[k].totalDays >= 1 && 0 <= gs[k].drinkDays <= gs[k].totalDays
    ensures forall k :: 0 <= k < |r| ==> 0 <= r[k].drinkDays <= r[k].totalDays && 1 <= r[k].totalDays
  {
    forall k | 0 <= k < |r|
      ensures 0 <= r[k].drinkDays <= r[k].totalDays && 1 <= r[k].totalDays
    {
      assert r[k] in multiset(gs);
    }
  }

  // ---------------------------------------------------------------------------
  // The leaderboard query as written

  /** The columns the leaderboard query (lines 232-245) selects. */
  const LeaderboardSelected: seq<string> := ["user_id", "display_name", "drink_days", "total_days"]

  /** The fields `LeaderboardRow` decodes by column name (server/src/models/api.rs lines 37-44). */
  const LeaderboardFields: seq<string> := ["user_id", "display_name", "drink_days", "total_days", "total_score"]

  /** The first of `fields` that no selected column carries, if any. */
  function MissingColumn(selected: seq<string>, fields: seq<string>): (c: Option<string>)
    ensures c.Some? <==> exists k :: 0 <= k < |fields| && fields[k] !in selected
    ensures c.Some? ==> c.value in fields && c.value !in selected
  {
    if fields == [] then None
    else if fields[0] !in selected then Some(fields[0])
    else
      var c := MissingColumn(selected, fields[1..]);
      assert (exists k :: 0 <= k < |fields| && fields[k] !in selected) ==>
        exists k :: 0 <= k < |fields[1..]| && fields[1..][k] !in selected by {
        if exists k :: 0 <= k < |fields| && fields[k] !in selected {
          var k :| 0 <= k < |fields| && fields[k] !in selected;
          assert fields[1..][k - 1] == fields[k];
        }
      }
      c
  }

  /** The message of the missing-column decode error. */
  function ColumnNotFound(column: string): string {
    "no column found for name: " + column
  }

  /**
   * Decoding fetched rows by column name, as the derived `FromRow` does: no
   * rows decode to none, and otherwise the first row fails on the first field
   * no column carries, with the message of the missing-column error.
   */
  function DecodeByName<T>(rows: seq<T>, selected: seq<string>, fields: seq<string>): (r: Result<seq<T>, string>)
    ensures r.Ok? <==> rows == [] || MissingColumn(selected, fields).None?
    ensures r.Ok? ==> r.value == rows
    ensures r.Err? ==> r.error == ColumnNotFound(MissingColumn(selected, fields).value)
  {
    if rows == [] then Ok([])
    else match MissingColumn(selected, fields)
      case None => Ok(rows)
      case Some(column) => Err(ColumnNotFound(column))
  }

  /** Of the fields `LeaderboardRow` decodes, only `total_score` is not selected. */
  lemma TotalScoreNotSelected()
    ensures MissingColumn(LeaderboardSelected, LeaderboardFields) == Some("total_score")
  {
    var fields := LeaderboardFields;
    assert fields[0] == LeaderboardSelected[0];
    assert fields[1] == LeaderboardSelected[1];
    assert fields[2] == LeaderboardSelected[2];
    assert fields[3] == LeaderboardSelected[3];
    assert fields[4..] == ["total_score"];
    assert "total_score" !in LeaderboardSelected by {
      assert "total_score"[0] == 't';
      forall k | 0 <= k < 4 ensures LeaderboardSelected[k] != "total_score" {
        assert LeaderboardSelected[k][0] != 't' || |LeaderboardSelected[k]| != 11;
      }
    }
    assert fields[1..][1..][1..][1..] == fields[4..];
  }

  /**
   * `get_leaderboard` as written (lines 228-252): the query selects no
   * `total_score`, so every year with a registered day fails to decode and
   * answers 500, and a year without one answers the empty list.
   * `GetLeaderboard` above is the answer the handler evidently intends.
   */
  function GetLeaderboardAsWritten(users: seq<UserRow>, table: map<DayKey, DayEntry>, year: int)
    : (r: Result<seq<LeaderboardRow>, AppError>)
    ensures r.Err? <==> Groups(users, table, year) != []
    ensures r.Err? ==> r.error == AppError(ColumnNotFound("total_score"), InternalServerError)
    ensures r.Ok? ==> r.value == []
  {
    var rows := GetLeaderboard(users, table, year);
    assert |rows| == |Groups(users, table, year)| by {
      assert |multiset(rows)| == |multiset(Groups(users, table, year))|;
    }
    TotalScoreNotSelected();
    MapToInternalError(DecodeByName(rows, LeaderboardSelected, LeaderboardFields), (e: string) => e)
  }

  /** One user with one registered day: the intended board has a row, the handler as written answers 500. */
  lemma LeaderboardAsWrittenFailsOnOneDay()
    ensures
      var users := [UserRow("u1", "ann", "hash", "Ann")];
      var table := map[("u1", Date(2024, 3, 1)) := DayEntry("d1", 2, None)];
      && GetLeaderboard(users, table, 2024) != []
      && GetLeaderboardAsWritten(users, table, 2024)
        == Err(AppError(ColumnNotFound("total_score"), InternalServerError))
  {
    var users := [UserRow("u1", "ann", "hash", "Ann")];
    var table := map[("u1", Date(2024, 3, 1)) := DayEntry("d1", 2, None)];
    assert Registered(table, "u1", 2024, Date(2024, 3, 1));
    var days := UserDays(table, "u1", 2024);
    assert Listed(days, Date(2024, 3, 1));
    assert GroupOf(table, users[0], 2024).totalDays >= 1;
    var gs := Groups(users, table, 2024);
    assert GroupOf(table, users[0], 2024) in gs;
    assert |multiset(GetLeaderboard(users, table, 2024))| == |multiset(gs)|;
  }

  // ---------------------------------------------------------------------------
  // The route table

  datatype Verb = Get | Post

  /** The handlers of `all_routes`. */
  datatype Handler = GetAccount | GetUserDays | GetLeaderboardPage | PostRegisterDay | PostLogin | PostRegister

  /** A route: verb, path pattern (segments, `:name` for a parameter) and handler. */
  datatype Route = Route(verb: Verb, pattern: seq<string>, handler: Handler)

  /** The routes placed before `route_layer` (lines 256-259): they pass through `require_active_user`. */
  const ProtectedRoutes: seq<Route> := [
    Route(Get, ["account"], GetAccount),
    Route(Get, ["user-days", ":user_id", ":year"], GetUserDays),
    Route(Get, ["leaderboard", ":year"], GetLeaderboardPage),
    Route(Post, ["register-day"], PostRegisterDay)
  ]

  /** The routes added after the layer (lines 261-262): open to anyone. */
  const OpenRoutes: seq<Route> := [
    Route(Post, ["login"], PostLogin),
    Route(Post, ["register"], PostRegister)
  ]

  /** A pattern segment matches a path segment: a parameter takes any non-empty one. */
  predicate SegmentMatches(pattern: string, segment: string) {
    if |pattern| > 0 && pattern[0] == ':' then segment != [] else pattern == segment
  }

  predicate PathMatches(pattern: seq<string>, path: seq<string>) {
    |pattern| == |path| && forall i :: 0 <= i < |path| ==> SegmentMatches(pattern[i], path[i])
  }

  /** The first route of `routes` for this verb and path. */
  function FindRoute(routes: seq<Route>, verb: Verb, path: seq<string>): (r: Option<Route>)
    ensures r.Some? ==> r.value in routes && r.value.verb == verb && PathMatches(r.value.pattern, path)
    ensures r.None? ==> forall k :: 0 <= k < |routes| ==> !(routes[k].verb == verb && PathMatches(routes[k].pattern, path))
  {
    if routes == [] then None
    else if routes[0].verb == verb && PathMatches(routes[0].pattern, path) then Some(routes[0])
    else FindRoute(routes[1..], verb, path)
  }

  /** The route found is the first one that matches. */
  lemma {:induction false} FindRouteFirst(routes: seq<Route>, k: int, verb: Verb, path: seq<string>)
    requires 0 <= k < |routes| && routes[k].verb == verb && PathMatches(routes[k].pattern, path)
    requires forall j :: 0 <= j < k ==> !(routes[j].verb == verb && PathMatches(routes[j].pattern, path))
    ensures FindRoute(routes, verb, path) == Some(routes[k])
  {
    if k > 0 {
      FindRouteFirst(routes[1..], k - 1, verb, path);
    }
  }

  /** How the router answers a request before the handler's own logic. */
  datatype Outcome =
    | NoRoute
    | Refused(error: AppError)
    | Dispatched(handler: Handler, claims: Option<UserClaims>)

  const AllRoutes: seq<Route> := ProtectedRoutes + OpenRoutes

  /**
   * `all_routes` (lines 254-264): an unknown route gets no handler; a
   * protected one runs only behind `require_active_user`, with its claims;
   * `/login` and `/register` run without any.
   */
  function Serve(verb: Verb, path: seq<string>, header: Option<string>, decode: string -> Option<UserClaims>, now: nat)
    : (o: Outcome)
    ensures o.NoRoute? <==> FindRoute(AllRoutes, verb, path).None?
    ensures o.Dispatched? && o.claims.None? ==> o.handler == PostLogin || o.handler == PostRegister
    ensures o.Dispatched? && (o.handler == PostLogin || o.handler == PostRegister) ==> o.claims.None?
    ensures o.Dispatched? && o.claims.Some? ==>
      RequireActiveUser(header, decode, now) == Ok(o.claims.value) && now < o.claims.value.exp
    ensures o.Refused? ==> o.error == AppError(InvalidToken, Unauthorized)
    ensures (FindRoute(AllRoutes, verb, path).Some? && FindRoute(AllRoutes, verb, path).value in ProtectedRoutes &&
             RequireActiveUser(header, decode, now).Ok?) ==>
      o == Dispatched(FindRoute(AllRoutes, verb, path).value.handler, Some(RequireActiveUser(header, decode, now).value))
    ensures (FindRoute(AllRoutes, verb, path).Some? && FindRoute(AllRoutes, verb, path).value in ProtectedRoutes &&
             RequireActiveUser(header, decode, now).Err?) ==>
      o == Refused(RequireActiveUser(header, decode, now).error)
    ensures FindRoute(AllRoutes, verb, path).Some? && FindRoute(AllRoutes, verb, path).value !in ProtectedRoutes ==>
      o == Dispatched(FindRoute(AllRoutes, verb, path).value.handler, None)
  {
    match FindRoute(AllRoutes, verb, path)
    case None => NoRoute
    case Some(route) =>
      if route in ProtectedRoutes then
        match RequireActiveUser(header, decode, now)
        case Ok(claims) => Dispatched(route.handler, Some(claims))
        case Err(e) => Refused(e)
      else
        Dispatched(route.handler, None)
  }

  /** The dashboard's `/yesterday-stats` has no route: it never reaches a handler. */
  lemma YesterdayStatsUnrouted(header: Option<string>, decode: string -> Option<UserClaims>, now: nat)
    ensures Serve(Get, ["yesterday-stats"], header, decode, now) == NoRoute
  {
    var path := ["yesterday-stats"];
    forall k | 0 <= k < |AllRoutes|
      ensures !PathMatches(AllRoutes[k].pattern, path)
    {
      if |AllRoutes[k].pattern| == 1 {
        assert !SegmentMatches(AllRoutes[k].pattern[0], path[0]);
      }
    }
  }

  /** A one-segment literal pattern matches exactly its own text. */
  lemma LiteralSegment(p: string, s: string)
    requires p == [] || p[0] != ':'
    ensures PathMatches([p], [s]) <==> p == s
  {
    assert [p][0] == p && [s][0] == s;
  }

  /** The route list, entry by entry. */
  lemma AllRoutesListed()
    ensures AllRoutes == [
      ProtectedRoutes[0], ProtectedRoutes[1], ProtectedRoutes[2], ProtectedRoutes[3],
      OpenRoutes[0], OpenRoutes[1]]
  {
  }

  /** Login is reachable without any token. */
  lemma LoginNeedsNoToken(decode: string -> Option<UserClaims>, now: nat)
    ensures Serve(Post, ["login"], None, decode, now) == Dispatched(PostLogin, None)
  {
    AllRoutesListed();
    LiteralSegment("register-day", "login");
    LiteralSegment("login", "login");
    FindRouteFirst(AllRoutes, 4, Post, ["login"]);
  }

  /** Registration is reachable without any token. */
  lemma RegisterNeedsNoToken(decode: string -> Option<UserClaims>, now: nat)
    ensures Serve(Post, ["register"], None, decode, now) == Dispatched(PostRegister, None)
  {
    AllRoutesListed();
    LiteralSegment("register-day", "register");
    LiteralSegment("login", "register");
    LiteralSegment("register", "register");
    FindRouteFirst(AllRoutes, 5, Post, ["register"]);
  }
}
