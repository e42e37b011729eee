/**
 * Where the client and the server meet: the bearer header the interceptor
 * builds is the one the server accepts, a registered day comes back in the
 * cell of its date, a server error's text reaches the registration form,
 * and the server's leaderboard rows can be ranked by average on the client.
 */
module Contract {
  import opened Wrappers
  import opened Calendar
  import opened Models
  import AppErrors
  import Authentication
  import Routes
  import UserProfile
  import Register
  import Leaderboard

  /**
   * The header set by `AuthenticationInterceptor.intercept` carries back
   * exactly the stored token through `require_active_user`'s prefix strip
   * (section 2.1 of RFC 6750), so the server judges that very token.
   */
  lemma BearerRoundTrip(headers: map<string, string>, token: string, decode: string -> Option<UserClaims>, now: nat)
    requires token != [] && Routes.VisibleAscii(token)
    ensures var sent := Authentication.Intercept(headers, Some(token));
      && Authentication.AuthorizationHeader in sent
      && Routes.BearerToken(Some(sent[Authentication.AuthorizationHeader])) == Ok(token)
      && var r := Routes.RequireActiveUser(Some(sent[Authentication.AuthorizationHeader]), decode, now);
      && (r.Ok? <==> decode(token).Some? && now < decode(token).value.exp)
      && (r.Ok? ==> Some(r.value) == decode(token))
  {
    var value := Authentication.BearerPrefix + token;
    assert Authentication.BearerPrefix == Routes.BearerPrefix;
    Routes.StripPrefixRoundTrip(Routes.BearerPrefix, token);
    assert Routes.VisibleAscii(value) by {
      forall i | 0 <= i < |value|
        ensures value[i] == '\t' || (' ' <= value[i] <= '~')
      {
        if i >= |Routes.BearerPrefix| {
          assert value[i] == token[i - |Routes.BearerPrefix|];
        }
      }
    }
  }

  /**
   * `get_user_days` gives the grid builder the input it relies on: dates
   * strictly ascending within the year, each registered day's level being
   * the level found for its date.
   */
  lemma UserDaysFeedGrid(table: map<Routes.DayKey, Routes.DayEntry>, userId: string, year: int, date: Date)
    ensures UserProfile.AscendingInYear(year, Routes.UserDays(table, userId, year))
    ensures Routes.Registered(table, userId, year, date) ==>
      UserProfile.LevelOf(Routes.UserDays(table, userId, year), date) == Some(table[(userId, date)].level)
  {
    var days := Routes.UserDays(table, userId, year);
    if Routes.Registered(table, userId, year, date) {
      var k :| 0 <= k < |days| && days[k].date == date;
      UserProfile.LevelOfUnique(days, k);
    }
  }

  /**
   * Registering a day of a past or current year and reloading that year's
   * profile shows the new level in the cell of that date. The reload asks
   * for the year of `req.date`; the page itself always asks for the current
   * year, so for the page the two agree only when the day registered lies in
   * the current year.
   */
  method RegisterThenView(db: Routes.Database, claims: UserClaims, req: DayRegisterRequest, currentYear: int, newId: string)
    returns (result: Result<bool, AppErrors.AppError>, months: seq<UserProfile.Month>)
    modifies db
    ensures req.date.year <= currentYear ==>
      && result == Ok(true)
      && |months| == 12
      && var d := req.date;
      && var (w, c) := UserProfile.SlotOf(d.year, d.month, d.day);
      && 0 <= w < |months[d.month - 1].weeks| && 0 <= c < |months[d.month - 1].weeks[w].days|
      && months[d.month - 1].weeks[w].days[c] == Some(UserProfile.Day(Some(req.level), d))
    ensures req.date.year > currentYear ==> result.Err?
  {
    result := db.RegisterDay(claims, req, currentYear, newId);
    var year := req.date.year;
    var days := Routes.UserDays(db.registeredDays, claims.userId, year);
    var readIndex;
    months, readIndex := UserProfile.BuildMonths(year, days);
    if year <= currentYear {
      assert Routes.Registered(db.registeredDays, claims.userId, year, req.date);
      UserDaysFeedGrid(db.registeredDays, claims.userId, year, req.date);
      var k :| 0 <= k < |days| && days[k].date == req.date;
      UserProfile.RegisteredDayShown(year, days, months, k);
    }
  }

  /** The registration form reads the `error` field of the reply body. */
  function ErrorText(body: AppErrors.Json): (r: Option<string>)
    ensures r.Some? ==> AppErrors.Field(body, "error") == Some(AppErrors.JString(r.value))
    ensures AppErrors.Field(body, "error").Some? && AppErrors.Field(body, "error").value.JString? ==>
      r == Some(AppErrors.Field(body, "error").value.s)
  {
    var field := AppErrors.Field(body, "error");
    if field.Some? && field.value.JString? then Some(field.value.s) else None
  }

  /** Every `AppError` the server renders reaches the form with its message. */
  lemma ErrorMessageReachesForm(e: AppErrors.AppError)
    ensures ErrorText(AppErrors.IntoResponse(e).body) == Some(e.message)
  {
  }

  /**
   * The registration round: the form submits, the server registers or
   * refuses, and the form shows the server's refusal; a name that exists
   * ignoring case comes back as "User already exists".
   */
  method RegisterRound(db: Routes.Database, form: Register.RegisterComponent, newId: string, hash: string)
    returns (login: Option<Register.Credentials>)
    requires db != form as object
    requires Routes.IdUnused(db.users, newId)
    modifies db, form
    ensures old(form.password) != old(form.confirmPassword) ==>
      login.None? && form.error == Some(Register.MismatchMessage) && db.users == old(db.users)
    ensures login.Some? ==> login.value == Register.Credentials(old(form.username), old(form.password))
    ensures
      var req := UserRegisterRequest(old(form.username), old(form.password), old(form.displayName));
      old(form.password) == old(form.confirmPassword) && Routes.CheckRegistration(old(db.users), req).Err? ==>
        login.None? && form.error == Some(Routes.CheckRegistration(old(db.users), req).error.message)
    ensures
      var req := UserRegisterRequest(old(form.username), old(form.password), old(form.displayName));
      old(form.password) == old(form.confirmPassword) && Routes.CheckRegistration(old(db.users), req).Ok? ==>
        var (username, displayName) := Routes.CheckRegistration(old(db.users), req).value;
        && login == Some(Register.Credentials(old(form.username), old(form.password)))
        && form.error == None
        && db.users == old(db.users) + [UserRow(newId, username, hash, displayName)]
    ensures !form.submitting
  {
    var request := form.Submit();
    if request.None? {
      return None;
    }
    var sent := request.value;
    var reply := db.RegisterUser(UserRegisterRequest(sent.username, sent.password, sent.displayName), newId, hash);
    match reply
    case Ok(_) =>
      var credentials := form.OnSuccess(sent);
      login := Some(credentials);
    case Err(e) =>
      ErrorMessageReachesForm(e);
      form.OnError(ErrorText(AppErrors.IntoResponse(e).body));
      login := None;
  }

  /**
   * The server's leaderboard rows, received as participants, satisfy the
   * client's condition for ranking by average, and are already ranked by
   * drink days.
   */
  lemma LeaderboardRowsRankable(users: seq<UserRow>, table: map<Routes.DayKey, Routes.DayEntry>, year: int, ps: seq<Leaderboard.Participant>)
    requires var rows := Routes.GetLeaderboard(users, table, year);
      |ps| == |rows| &&
      forall k :: 0 <= k < |ps| ==> ps[k].drinkDays == rows[k].drinkDays && ps[k].totalDays == rows[k].totalDays
    ensures Leaderboard.Comparable(Leaderboard.Average, ps)
    ensures Leaderboard.SortedBy(Leaderboard.DrinkDays, ps)
  {
    var rows := Routes.GetLeaderboard(users, table, year);
    forall i, j | 0 <= i < j < |ps|
      ensures Leaderboard.RanksAbove(Leaderboard.DrinkDays, ps[i], ps[j])
    {
      assert Routes.RankedBefore(rows[i], rows[j]);
    }
  }
}
