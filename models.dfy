/**
 * The records exchanged by the server and the client
 * (server/src/models/db.rs, server/src/models/api.rs,
 * server/src/models/auth.rs). Identifiers are opaque strings.
 */
module Models {
  import opened Wrappers
  import opened Calendar

  /** A `chrono::NaiveDate`: only dates that exist. */
  type NaiveDate = d: Date | ValidDate(d) witness Date(1970, 1, 1)

  /** A row of the `users` table; `password` holds the password hash. */
  datatype UserRow = UserRow(userId: string, username: string, password: string, displayName: string)

  /** A row of the `registered_days` table, as stored and as sent to the client. */
  datatype RegisteredDay = RegisteredDay(
    registeredDayId: string,
    userId: string,
    date: Date,
    level: int,
    comment: Option<string>)

  /** The claims of an access token; `exp` in seconds since the Unix epoch. */
  datatype UserClaims = UserClaims(userId: string, username: string, exp: nat)

  datatype UserApiResponse = UserApiResponse(userId: string, username: string, displayName: string)

  datatype UserTokenResponse = UserTokenResponse(token: string)

  datatype UserCredentialsRequest = UserCredentialsRequest(username: string, password: string)

  datatype UserRegisterRequest = UserRegisterRequest(username: string, password: string, displayName: string)

  datatype DayRegisterRequest = DayRegisterRequest(date: NaiveDate, level: int, comment: Option<string>)

  /** A row of the leaderboard query; `total_score` is not produced by the query. */
  datatype LeaderboardRow = LeaderboardRow(userId: string, displayName: string, drinkDays: int, totalDays: int)
}
