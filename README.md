# Drink tracker: a Dafny model of its core

The drink tracker is a small web application. Users register and log in.
Each user records, day by day, a "level" for the days they drank. A profile
page shows a user's year as a calendar. A leaderboard and a dashboard rank
the participants. The client is an Angular application. The server is an
axum service over two Postgres tables, `users` and `registered_days`.

This project models the parts of both sides that hold logic:

- **Calendar grid** (`UserProfile`, over `Calendar`). The profile page lays a
  year out as twelve months of Monday-first weeks. While doing so it merges
  the user's registered days into the cells with a single read pointer.
  `BuildMonths` and `LayOutMonth` are the two nested loops. They are proved
  to produce the layout the calendar dictates. They are also proved to put
  the right level in each cell when the input is in ascending date order,
  which the server's `order by date` delivers.
- **Ranking and filtering**:
  - `Leaderboard`: the client's in-place sort by three keys, as an insertion
    sort over an `array`.
  - `Dashboard`: the filter of the participants who drank.
  - `Routes.GetLeaderboard`: the server's aggregation query, as a function
    over the tables.
- **Client authentication** (`Authentication`): the `AuthState` machine of
  the authentication service, the bearer-header interceptor and the route
  guard.
- **Registration form** (`Register`): the password-confirmation check and
  the form's submitting and error state.
- **Server request rules** (`Routes`, over `ServerText` and `AppErrors`):
  - token expiry and bearer parsing;
  - the registration and login checks;
  - the upsert of a day;
  - the user's days of a year, and the leaderboard query;
  - the route table with its protection layer;
  - the `AppError` rendering and the `Result` mappings.
- **Contract** between client and server:
  - the header the client builds carries back exactly the stored token
    through the server's prefix strip (section 2.1 of RFC 6750);
  - a day registered on the server shows up in the right cell after a reload;
  - a server refusal reaches the registration form with its text;
  - the server's leaderboard rows satisfy the client's condition for ranking
    by average.

Tables are values: `users` is a sequence of rows and `registered_days` is a
map keyed by (user id, date). The client's signals and the server's tables
are fields of classes that the methods update. The following are parameters:

- the clock (`now`, the current year);
- the password hasher and verifier;
- the token signer and decoder;
- generated ids;
- HTTP outcomes.

Dates are (year, month, day) triples in the proleptic Gregorian calendar.
The weekday is computed from a day count that starts at 0001-01-01, which
was a Monday.

## Model

| member | source | states |
|---|---|---|
| Calendar.DaysInMonth | client/src/app/user-profile/user-profile.component.ts:104 | A month has 28 to 31 days. February has 29 exactly in a leap year. |
| Calendar.JsGetDay | client/src/app/user-profile/user-profile.component.ts:110 | `getDay()` is a weekday number in 0..6. |
| Calendar.MondayIndex | client/src/app/user-profile/user-profile.component.ts:110 | `(getDay() + 6) % 7` is a column in 0..6. |
| Calendar.KnownWeekdays | client/src/app/user-profile/user-profile.component.ts:110 | The weekday function agrees with the calendar: 1970-01-01 is a Thursday (4) and 2024-01-01 a Monday (column 0). |
| Calendar.MondayIndexIsDayNumberMod | client/src/app/user-profile/user-profile.component.ts:110 | For a valid date, the Monday-first column is the day count modulo 7. |
| Calendar.ColumnOfDay | client/src/app/user-profile/user-profile.component.ts:108-110 | Within a month, day d sits d-1 columns after day 1, modulo 7. |
| Calendar.DaysBeforeMonth | client/src/app/user-profile/user-profile.component.ts:104 | The days before month m number between 28 and 31 per earlier month. |
| Calendar.MonthsFillYear | client/src/app/user-profile/user-profile.component.ts:96-104 | The twelve month lengths add up to the length of the year. |
| Calendar.NextMonthFollows | client/src/app/user-profile/user-profile.component.ts:104-109 | The day after the last day of a month is the 1st of the next month. |
| UserProfile.IsSameDate | client/src/app/user-profile/user-profile.component.ts:156-174 | True iff both dates are absent, or both are present with the same day, month and year. This makes it reflexive and symmetric. |
| UserProfile.FirstColumn | client/src/app/user-profile/user-profile.component.ts:110 | The 1st of a month lands in a column in 0..6. |
| UserProfile.LevelOf | client/src/app/user-profile/user-profile.component.ts:119-131 | No level iff no record has the date. Otherwise the level comes from a record with that date. |
| UserProfile.LevelOfUnique | client/src/app/user-profile/user-profile.component.ts:119-125 | With strictly ascending dates, the level found for a record's date is that record's level. |
| UserProfile.AdvanceOnMatch | client/src/app/user-profile/user-profile.component.ts:119-125 | When the record under the pointer has today's date, the level is found and the pointer moves past it. The pointer then splits the records at tomorrow. |
| UserProfile.AdvanceOnMiss | client/src/app/user-profile/user-profile.component.ts:126-131 | Otherwise no record has today's date, and the unmoved pointer splits the records at tomorrow. |
| UserProfile.MonthBoundary | client/src/app/user-profile/user-profile.component.ts:104-108 | A split after a month's last day is a split at the 1st of the next month. |
| UserProfile.PointerAtEnd | client/src/app/user-profile/user-profile.component.ts:94-133 | A split after December 31st of the year leaves no record of that year unread. |
| UserProfile.WeekStep | client/src/app/user-profile/user-profile.component.ts:112-117 | A new week opens exactly when the day's column wraps to Monday. The day's column is then its offset from the 1st's column. |
| UserProfile.WeekCountFromBounds | client/src/app/user-profile/user-profile.component.ts:108-117 | The weeks opened by the loop are the weeks the month spans. |
| UserProfile.OpenWeek | client/src/app/user-profile/user-profile.component.ts:113-116 | Appending an empty week at a Monday leaves all of its slots empty and all built slots intact. |
| UserProfile.PlaceDay | client/src/app/user-profile/user-profile.component.ts:119-131 | Filling the slot of day j+1 extends the built part by exactly that day and changes no other slot. |
| UserProfile.VisitDay | client/src/app/user-profile/user-profile.component.ts:109-131 | One inner iteration keeps the layout invariant and the week-count bounds. |
| UserProfile.FinishMonth | client/src/app/user-profile/user-profile.component.ts:108-132 | After all days of the month, each slot holds the day the layout dictates. |
| UserProfile.ReadDay | client/src/app/user-profile/user-profile.component.ts:119-131 | The cell shows today's date and a level that was registered for it. The pointer advances by at most one. Under ascending input the level is exactly the registered one and the split moves to tomorrow. |
| UserProfile.LayOutMonth | client/src/app/user-profile/user-profile.component.ts:97-132 | Returns WeekCount weeks of 7 slots. Each slot shows its day, or is empty outside the month. Levels come from the input. The pointer advances at most once per day. Under ascending input the levels are exact and the pointer reaches the next month's split. |
| UserProfile.PackMonth | client/src/app/user-profile/user-profile.component.ts:97-102 | The laid-out weeks under `monthNames[k]` form month k. |
| UserProfile.BuildMonths | client/src/app/user-profile/user-profile.component.ts:92-133 | Exactly 12 months, month i named `monthNames[i]` and laid out as the calendar dictates. Every shown level was registered. The pointer never exceeds the input or the days of the year. For strictly ascending input within the year, every cell has exactly its date's level and the pointer ends at the input length. |
| UserProfile.GridComplete | client/src/app/user-profile/user-profile.component.ts:96-133 | Twelve finished months give the layout and level properties month by month. |
| UserProfile.DayPlacedOnce | client/src/app/user-profile/user-profile.component.ts:99-132 | Each day of the month appears in exactly one slot, its SlotOf, and in no other slot. |
| UserProfile.SlotIsWeekday | client/src/app/user-profile/user-profile.component.ts:110-127 | Day d's column is its Monday-first weekday, `(getDay()+6)%7`. |
| UserProfile.MondaysCountWeeks | client/src/app/user-profile/user-profile.component.ts:112-117 | After n days, the weeks opened beyond the first number the Mondays among days 2..n. |
| UserProfile.WeeksAreMondays | client/src/app/user-profile/user-profile.component.ts:112-117 | A month has 1 week plus 1 for every Monday after the 1st. |
| UserProfile.PaddingIsEmpty | client/src/app/user-profile/user-profile.component.ts:99-101 | Slots before the 1st in the first week, and after the last day in the last week, stay empty. |
| UserProfile.RegisteredDayShown | client/src/app/user-profile/user-profile.component.ts:119-125 | For ascending input within the year, each registered day's level is in the cell of its date. |
| UserProfile.UnregisteredDayEmpty | client/src/app/user-profile/user-profile.component.ts:126-131 | Under the same input, a cell has no level iff no day is registered for its date. |
| UserProfile.UserProfileComponent.constructor | client/src/app/user-profile/user-profile.component.ts:63-78 | No months, for the user id of the route, and loading at once, as the route subscription calls `load()`. |
| UserProfile.UserProfileComponent.Load | client/src/app/user-profile/user-profile.component.ts:85-90 | Raises the loading flag and requests the user's days of the year, changing nothing else. |
| UserProfile.UserProfileComponent.OnUserDays | client/src/app/user-profile/user-profile.component.ts:90-137 | Sets the twelve built months with BuildMonths' guarantees, then lowers the loading flag. |
| UserProfile.UserProfileComponent.ChangeLevel | client/src/app/user-profile/user-profile.component.ts:140-153 | Raises loading and posts the level with no comment. For a valid date with a year from -262144 to 9999, the posted date text reads back as the cell's date. |
| DateText.NatToString | client/src/app/user-profile/user-profile.component.ts:144 | Decimal text of a number: non-empty, digits only. |
| DateText.IndexOfDash | server/src/models/api.rs:32 | The first dash of a text, or none when it has no dash. |
| DateText.SplitDash | server/src/models/api.rs:32 | Splitting at the first dash gives back the text around it, and the left part has no dash. It splits iff the text has a dash. |
| DateText.NatRoundTrip | client/src/app/user-profile/user-profile.component.ts:144 | Reading back a number's decimal text gives the number. |
| DateText.SplitAtDash | server/src/models/api.rs:32 | A dash-free text, a dash, then anything splits back into the two parts. |
| DateText.Pow10 | server/src/models/api.rs:32 | A power of ten is at least 1. |
| DateText.ParseField | server/src/models/api.rs:32 | A field reads iff it has one to `width` characters, all digits; its value is below 10 to the `width`. |
| DateText.ParseDateString | server/src/models/api.rs:32 | Every date read is a valid calendar date with a year from -262144 to 9999. |
| DateText.DigitsBound | server/src/models/api.rs:32 | A digit string of length k stands for a number below 10 to the k. |
| DateText.Pow10Grows | server/src/models/api.rs:32 | Powers of ten grow with the exponent. |
| DateText.NatLength | server/src/models/api.rs:32 | A number below 10 to the k has at most k digits. |
| DateText.UnsignedRoundTrip | server/src/models/api.rs:32 | `y-m-d` of three numbers, the year within the year width and month and day below 100, reads back as (y, m, d). |
| DateText.ParseParts | server/src/models/api.rs:32 | Three digit strings joined by dashes, each within its width, read back as their values. |
| DateText.DateStringRoundTrip | client/src/app/user-profile/user-profile.component.ts:144 | For a valid date with a year from -262144 to 9999, the date text `changeLevel` posts reads back, as the server's date, into the same date. |
| DateText.NegativeYearRoundTrip | client/src/app/user-profile/user-profile.component.ts:144 | The same round trip holds for years from -262144 to -1, which carry a leading minus sign and any number of year digits. |
| DateText.NonNegativeYearRoundTrip | client/src/app/user-profile/user-profile.component.ts:144 | The round trip for years 0 to 9999, whose text has at most four year digits. |
| DateText.FiveDigitYearRefused | server/src/models/api.rs:32 | An unsigned five-digit year, as in `10000-1-1`, is refused. |
| Leaderboard.RanksTotal | client/src/app/leaderboard/leaderboard.component.ts:48-50 | Any two participants are ordered one way or the other under each key. |
| Leaderboard.RanksTransitive | client/src/app/leaderboard/leaderboard.component.ts:48-50 | The comparator order is transitive. For the average this needs positive day counts. |
| Leaderboard.ComparableMember | client/src/app/leaderboard/leaderboard.component.ts:48 | A permutation of a list with positive day counts has positive day counts. |
| Leaderboard.StartInsert | client/src/app/leaderboard/leaderboard.component.ts:45-51 | A sorted prefix, with the next entry set aside, is the start of an insertion step. |
| Leaderboard.SwapStep | client/src/app/leaderboard/leaderboard.component.ts:45-51 | An adjacent swap of an entry ranking strictly higher moves it left and keeps the order around it. The entries stay the same. |
| Leaderboard.SwapPermutes | client/src/app/leaderboard/leaderboard.component.ts:45-51 | An adjacent swap keeps the same multiset of entries. |
| Leaderboard.InsertDone | client/src/app/leaderboard/leaderboard.component.ts:45-51 | When the moved entry stops, the sorted prefix has grown by one. |
| Leaderboard.SortInPlace | client/src/app/leaderboard/leaderboard.component.ts:48-50 | The array becomes a permutation of itself. It is non-increasing on the key whenever the key orders its entries: always for drink days and total score, with positive total days for the average. |
| Leaderboard.LeaderboardComponent.constructor | client/src/app/leaderboard/leaderboard.component.ts:36-39 | Starts loading, sorted by drink days, with no participants. |
| Leaderboard.LeaderboardComponent.OnResponse | client/src/app/leaderboard/leaderboard.component.ts:61-64 | The response replaces the participants and loading ends. |
| Leaderboard.LeaderboardComponent.SelectSort | client/src/app/leaderboard/leaderboard.component.ts:37 | Only the sort key changes. |
| Leaderboard.LeaderboardComponent.SortedParticipants | client/src/app/leaderboard/leaderboard.component.ts:40-52 | While loading: empty and the stored list untouched. Otherwise: the stored array itself, permuted, sorted by the selected key when the key orders it. |
| Dashboard.Champions | client/src/app/dashboard/dashboard.component.ts:26 | Every champion drank (`drink_days > 0`) and is a participant. There are no more champions than participants. |
| Dashboard.ChampionsComplete | client/src/app/dashboard/dashboard.component.ts:26 | Every participant who drank is a champion. |
| Dashboard.ChampionsKeepOrder | client/src/app/dashboard/dashboard.component.ts:26 | Filtering distributes over concatenation, so the participants' order is kept. |
| Dashboard.ChampionsAllWhenAllDrank | client/src/app/dashboard/dashboard.component.ts:26 | The champions are all participants iff everyone drank. |
| Dashboard.AllDrankKept | client/src/app/dashboard/dashboard.component.ts:26 | When every participant drank, the filter keeps the whole list. |
| Dashboard.ChampionsIdempotent | client/src/app/dashboard/dashboard.component.ts:26 | Filtering the champions again changes nothing. |
| Dashboard.DashboardComponent.constructor | client/src/app/dashboard/dashboard.component.ts:24-25 | Starts loading with no participants. |
| Dashboard.DashboardComponent.OnResponse | client/src/app/dashboard/dashboard.component.ts:33-36 | Participants are set from the response, and then loading is false. |
| Dashboard.DashboardComponent.ChampionList | client/src/app/dashboard/dashboard.component.ts:26 | Exactly the stored participants who drank. |
| Authentication.Intercept | client/src/authentication.service.ts:143-153 | Without a usable token the headers are unchanged. Otherwise "Authorization" is "Bearer " + token and every other header is kept. |
| Authentication.InterceptIdempotent | client/src/authentication.service.ts:143-153 | Intercepting twice equals intercepting once. |
| Authentication.GuardDecision | client/src/authentication.service.ts:168-179 | The route opens iff a user was loaded. Otherwise the guard navigates home. |
| Authentication.AuthenticationService.constructor | client/src/authentication.service.ts:30-35 | No user, not logging in, not loading, and the token read back from storage. |
| Authentication.AuthenticationService.Logout | client/src/authentication.service.ts:96-104 | Always the logged-out state, whatever came before, so logging out twice is logging out once. |
| Authentication.AuthenticationService.LoadAccount | client/src/authentication.service.ts:106-122 | With an absent or empty token: logged out, nothing fetched. Otherwise: no user, the same token, loading, and the request goes out. |
| Authentication.AuthenticationService.OnAccountReply | client/src/authentication.service.ts:123-135 | A reply sets the user, keeps the token and ends loading. An error logs out. |
| Authentication.AuthenticationService.StartLogin | client/src/authentication.service.ts:59-64 | User and token cleared, logging in. |
| Authentication.AuthenticationService.FinishLogin | client/src/authentication.service.ts:66-93 | The result is true iff the server answered. A usable token is stored and loading starts. A failure ends logged out. |
| Authentication.AuthenticationService.CanActivate | client/src/authentication.service.ts:163-182 | Allows iff the token was usable and the account reply carried a user. Otherwise it navigates home. A missing token or a failed reply logs out. A usable token and a reply with a user end in exactly that user, the same token, and neither logging in nor loading. |
| Register.RegisterComponent.constructor | client/src/app/register/register.component.ts:15-21 | Not submitting, no error, all fields empty. |
| Register.RegisterComponent.Edit | client/src/app/register/register.component.ts:18-21 | Binding updates the four fields only. |
| Register.RegisterComponent.Submit | client/src/app/register/register.component.ts:32-49 | Nothing is sent iff the password differs from its confirmation. In that case submitting ends and the mismatch message shows. Otherwise the fields are posted unchanged and the form stays submitting. |
| Register.RegisterComponent.OnSuccess | client/src/app/register/register.component.ts:50-57 | Submitting ends with no error, and the login uses the posted username and password. The four form fields keep their values. |
| Register.RegisterComponent.OnError | client/src/app/register/register.component.ts:58-63 | Submitting ends and the error is the body's `error` field. The four form fields keep their values. |
| AppErrors.Field | server/src/error.rs:27 | The value of a named field of a JSON object, or none when the object has no such field. |
| AppErrors.NewAppError | server/src/error.rs:14-19 | Exactly the given message and status. |
| AppErrors.IntoResponse | server/src/error.rs:22-28 | Keeps the status. The body is the one-field object `{"error": message}`. |
| AppErrors.DetailedIntoResponse | server/src/error.rs:48-54 | Keeps the status. The body has exactly `"error"` and `"details"`. |
| AppErrors.MapToServerStatus | server/src/error.rs:65-70 | Ok(t) passes through unchanged. Err(e) becomes an error with e's text and the given status. |
| AppErrors.MapToNotFound | server/src/error.rs:72-74 | The same mapping with 404. |
| AppErrors.MapToInternalError | server/src/error.rs:76-78 | The same mapping with 500. |
| AppErrors.MapToBadRequest | server/src/error.rs:80-82 | The same mapping with 400. |
| ServerText.SkipLeading | server/src/routes.rs:89-90 | The first non-whitespace index from i on, with only whitespace skipped. |
| ServerText.SkipTrailing | server/src/routes.rs:89-90 | The end of the last non-whitespace character down to i, with only whitespace skipped. |
| ServerText.Trim | server/src/routes.rs:89-90 | The middle of the text once only whitespace is cut from both ends. What remains neither starts nor ends with whitespace. |
| ServerText.TrimEmpty | server/src/routes.rs:93 | A trimmed name is empty iff it was all whitespace. |
| ServerText.TrimIdempotent | server/src/routes.rs:89-90 | Trimming twice is trimming once. |
| ServerText.LowerChar | server/src/routes.rs:98 | ASCII capitals map to small letters. Every other character is unchanged. |
| ServerText.Lower | server/src/routes.rs:98 | Lowering is character by character and keeps the length. |
| ServerText.CaseVariantsCollide | server/src/routes.rs:97-107 | Names that differ only in letter case are the same name. |
| ServerText.LowerIdempotent | server/src/routes.rs:98 | Lowering twice is lowering once. |
| Routes.AuthByToken | server/src/routes.rs:30-47 | Decoded claims are accepted iff now < exp, and are then returned unchanged. |
| Routes.StripPrefix | server/src/routes.rs:57 | Strips iff the text starts with the prefix. The text is then the prefix plus the result. |
| Routes.StripPrefixRoundTrip | server/src/routes.rs:57 | Stripping "Bearer " from "Bearer " + t gives t. |
| Routes.BearerToken | server/src/routes.rs:54-58 | A token iff the header is present, is visible text, and starts with "Bearer ". Anything else is 401 "Invalid token". |
| Routes.RequireActiveUser | server/src/routes.rs:49-68 | Passes, carrying the decoded claims, iff the bearer token decodes to unexpired claims. Every refusal is 401 "Invalid token". |
| Routes.IssuedClaims | server/src/routes.rs:155-164 | A login's claims carry the user's id and name and expire 43200 seconds after now. |
| Routes.IssuedTokenLifetime | server/src/routes.rs:42-46 | A freshly issued token is accepted exactly during the following twelve hours. |
| Routes.FindUser | server/src/routes.rs:97-103 | A user whose name matches ignoring case. No user means none matches. |
| Routes.CheckRegistration | server/src/routes.rs:89-107 | 403 "Invalid data" iff the trimmed username, the trimmed display name or the password is empty. Otherwise exactly 403 "User already exists" iff a name matches ignoring case. Success yields the trimmed names, which no existing user has. |
| Routes.Login | server/src/routes.rs:129-181 | Empty input and an unknown user get 403 "Invalid credentials". For a known user: a matching password answers the token signed over the issued claims, or 500 with the signer's error; a wrong password gets 403 "Invalid credentials"; a malformed stored hash gets 500 with its error text. |
| Routes.LoginRefusalsAlike | server/src/routes.rs:137-139 | A wrong password is refused exactly as an unknown user is. |
| Routes.RowOf | server/src/routes.rs:196-199 | The row stored under a key carries that key's user and date. |
| Routes.Upsert | server/src/routes.rs:196-199 | The key holds the new level and comment, keeping its row id if it had one. Every other key is untouched. |
| Routes.UpsertIdempotent | server/src/routes.rs:196-199 | Registering the same day twice with the same data is registering it once. |
| Routes.UpsertLatestWins | server/src/routes.rs:196-199 | A later registration of a day overrides the earlier one's level and comment. |
| Routes.DaysFrom | server/src/routes.rs:215-218 | The stored rows of the user from a date to the year's end, with every registered day listed, in strictly ascending order. |
| Routes.NextMonthListing | server/src/routes.rs:215-218 | Past a month's last day, the listing from the next month is the same. |
| Routes.NextDayListing | server/src/routes.rs:215-218 | A date with no stored row adds nothing to the listing. |
| Routes.PrependRow | server/src/routes.rs:215-218 | A date's row in front of the next day's listing is the listing from that date. |
| Routes.UserDays | server/src/routes.rs:211-226 | Every row listed is the user's stored row for a date of the year. Every stored day of the year is listed. Dates strictly increase. |
| Routes.DistinctUsersPairwise | server/src/routes.rs:97-119 | In a table built by the inserts, no two users share an id or a name ignoring case. |
| Routes.NewUserKeepsDistinct | server/src/routes.rs:97-119 | A user who passed the checks, under a fresh id, keeps the users distinct. |
| Routes.Database.constructor | server/src/routes.rs:254-264 | Empty tables, in a valid state. |
| Routes.Database.RegisterUser | server/src/routes.rs:85-127 | A refusal leaves the table unchanged. Success appends the user with the trimmed names and the hash, and answers only id, username and display name. Distinct users and valid keys are preserved. |
| Routes.Database.RegisterDay | server/src/routes.rs:183-209 | A year after the current one gives 403 "Invalid data" with nothing stored. Otherwise the day is upserted and the answer is true. Users and the table invariant are preserved. |
| Routes.DrinkDays | server/src/routes.rs:236 | Rows with a level of at least 1, at most all rows. |
| Routes.GroupOf | server/src/routes.rs:233-243 | A user's group carries their id and display name, with drink days at most total days. |
| Routes.DatesOfCons | server/src/routes.rs:236-237 | The dates of a list of rows are the first row's date, when it counts, and the dates of the rest. |
| Routes.FirstDateNew | server/src/routes.rs:236-237 | With strictly increasing dates, the first row's date is not among the dates of the rest. |
| Routes.CountCons | server/src/routes.rs:236-237 | A first date not among the rest adds one date, and one drinking date when its level is at least 1. |
| Routes.CountDates | server/src/routes.rs:236-237 | For rows with strictly ascending dates, the row count is the number of dates, and the drink days are the number of dates with a level of at least 1. |
| Routes.GroupCounts | server/src/routes.rs:236-237 | A group's total days are the number of dates the user registered in the year, and its drink days the number of those with a level of at least 1. |
| Routes.NonEmptyKeepsDistinct | server/src/routes.rs:238-243 | Dropping the empty groups keeps user ids distinct. |
| Routes.AllGroups | server/src/routes.rs:238-243 | One group per user, in order. |
| Routes.NonEmptyGroups | server/src/routes.rs:239-241 | Keeps exactly the groups with at least one day. |
| Routes.Groups | server/src/routes.rs:233-243 | Each group belongs to a user, has at least one day, and has drink days at most total days. Every user with a day of the year has their group. With distinct user ids, no two groups share a user id, as `group by users.user_id` gives. |
| Routes.StrLeTotal | server/src/routes.rs:244 | Any two names are ordered. |
| Routes.StrLeTransitive | server/src/routes.rs:244 | Name order is transitive. |
| Routes.RankedTotal | server/src/routes.rs:244 | Any two rows are ordered by drink days descending, then name ascending. |
| Routes.RankedTransitive | server/src/routes.rs:244 | That order is transitive. |
| Routes.InsertRanked | server/src/routes.rs:244 | Inserting into a ranked list gives a ranked list with one more row. |
| Routes.InsertAfterHead | server/src/routes.rs:244 | Inserting after a ranked list's head keeps the head first. |
| Routes.RankRows | server/src/routes.rs:244 | The ranked rows are a permutation of the input. |
| Routes.PermutedCounts | server/src/routes.rs:236-237 | A permutation keeps every row's counts. |
| Routes.GetLeaderboard | server/src/routes.rs:228-252 | A ranked permutation of the groups. Every row has at least one day and drink days at most total days. This is the answer the handler evidently intends (see Findings). |
| Routes.MissingColumn | server/src/models/api.rs:37-44 | Some field iff a field is not among the selected columns; the field returned is one of them. |
| Routes.DecodeByName | server/src/models/api.rs:37-44 | No rows, or no missing column, decode to the rows unchanged. Otherwise the error names the missing column. |
| Routes.TotalScoreNotSelected | server/src/routes.rs:232-245 | Of the row's fields, `total_score` is the first that the query does not select. |
| Routes.GetLeaderboardAsWritten | server/src/routes.rs:228-252 | As written, an error iff the year has a group, and then 500 naming `total_score`. Otherwise the empty list. |
| Routes.LeaderboardAsWrittenFailsOnOneDay | server/src/routes.rs:228-252 | One user with one registered day: the intended board has a row, while the handler as written answers 500. |
| Routes.FindRoute | server/src/routes.rs:254-264 | A route matching the verb and path. None means no route matches. |
| Routes.FindRouteFirst | server/src/routes.rs:254-264 | The route found is the first that matches. |
| Routes.Serve | server/src/routes.rs:254-264 | No handler without a route. `/login` and `/register` run without claims. A protected route runs with the claims of RequireActiveUser when it accepts, and is refused with its 401 "Invalid token" otherwise. |
| Routes.YesterdayStatsUnrouted | client/src/app/dashboard/dashboard.component.ts:32 | The dashboard's `/yesterday-stats` has no route on the server. |
| Routes.LiteralSegment | server/src/routes.rs:256-262 | A literal one-segment pattern matches only its own text. |
| Routes.AllRoutesListed | server/src/routes.rs:255-262 | The route table, entry by entry, protected first. |
| Routes.LoginNeedsNoToken | server/src/routes.rs:261 | POST /login reaches its handler without any header. |
| Routes.RegisterNeedsNoToken | server/src/routes.rs:262 | POST /register reaches its handler without any header. |
| Contract.BearerRoundTrip | client/src/authentication.service.ts:150 | The header the interceptor sets passes the server's check with exactly the stored token. |
| Contract.UserDaysFeedGrid | server/src/routes.rs:215-218 | The user's days of a year are strictly ascending dates of that year, as the grid needs. A registered date is among them with its stored level. |
| Contract.RegisterThenView | client/src/app/user-profile/user-profile.component.ts:140-153 | Registering a day of the current or a past year, then reloading the year of that day, shows the new level in that date's cell. |
| Contract.ErrorText | client/src/app/register/register.component.ts:62 | A text is found iff the body's `error` field holds a string, and it is that string. |
| Contract.ErrorMessageReachesForm | client/src/app/register/register.component.ts:58-63 | Every rendered server error reaches the form with its message. |
| Contract.RegisterRound | client/src/app/register/register.component.ts:32-65 | A mismatch sends nothing. A server refusal (invalid data, or a name existing ignoring case) shows its text. When the passwords match and the server accepts, the user with the trimmed names and the hash is appended, no error shows, and the form logs in with the typed credentials. Submitting always ends. |
| Contract.LeaderboardRowsRankable | server/src/routes.rs:236-244 | The server's rows have positive total days, so the client can rank them by average. They already come sorted by drink days. |

## Left out

- I/O is not modelled: the Postgres pool, HTTP transport, rxjs scheduling, console logging, environment reading and server start-up. The failures that reach `map_to_internal_error` are not modelled either. Query and insert errors in `register_user`, `register_day`, `get_user_days` and `get_leaderboard` therefore never occur in the model.
- Argon2 hashing and verification are parameters. The same goes for token signing and decoding, generated ids and the clock. A clock before the Unix epoch is not represented, since `now` is a natural number.
- `get_account` (server/src/routes.rs:70-83) is not modelled. It is a single lookup that panics when the user is missing.
- Path-parameter parse failures (a bad UUID or year) are not modelled. Neither is axum's 405 for a known path under another verb. Routing answers only "no route", "refused" or "dispatched".
- `get_user_days` lets any authenticated user read any user's days. The model keeps this, since the route takes the user id from the path.
- Routes.DistinctUsersPairwise: the users table is modelled as built by the inserts, one admissible row at a time. The database's own unique constraints are not modelled.
- Routes.Database.RegisterUser: requires the generated id to be unused, which stands for the primary-key default generating a fresh id.
- Routes.StrLeTotal: display names are ordered by code point. Postgres collation is not modelled.
- ServerText.LowerChar: SQL `lower()` is modelled on ASCII letters only. Case mapping beyond ASCII is not modelled.
- The `total_score` column of the leaderboard row is declared but not produced by the query (see Findings). The server model's row has no such field. The client's `total_score` sort key is modelled over whatever value the client holds.
- Routes.GetLeaderboard: models the answer the handler evidently intends. As written, any year with a registered day answers 500 (Routes.GetLeaderboardAsWritten), so the ranked rows are never actually delivered.
- Contract.LeaderboardRowsRankable: holds of the intended rows of Routes.GetLeaderboard. With the handler as written, the client only ever receives an empty list or a 500.
- DateText.ParseDateString: chrono's whitespace tolerance and a leading '+' sign are not modelled. An unsigned year has one to four digits, so years from 10000 on are refused, as chrono refuses them without a sign.
- UserProfile.UserProfileComponent.ChangeLevel: the round trip of the posted date is promised only for years -262144 to 9999; the client's text for a later year carries five or more digits with no sign, which the server refuses.
- Leaderboard.SortInPlace: the JavaScript sort algorithm and its stability are not modelled; any sort that ends as a sorted permutation matches. The average is compared by cross-multiplication, which agrees with division only for positive total days. With a zero total, division gives NaN or Infinity and the comparator is no longer consistent. The model then promises only the permutation.
- UserProfile.BuildMonths: exact levels are promised only for strictly ascending input of the same year, which is what the server delivers. For other input, the model promises only that every shown level was registered for its cell's date.
- UserProfile.LayOutMonth: the JavaScript aliasing of `currentWeek` with the last week of the month is modelled by value, as an update of the last week of a sequence.
- Dates are triples, not JavaScript `Date` objects. The local time zone and the parsing of the server's date text by `new Date(...)` are not modelled. A record's date is taken as its calendar date.
- Authentication: the `sessionStorage` entry is a field that `Valid()` keeps equal to the state's token, standing for the effect on lines 47-55. The interceptor reads that entry.
- Authentication.AuthenticationService.OnAccountReply: the `/account` reply is applied to whatever the state is when it arrives. Interleavings with a concurrent `logout` are not modelled.
- Authentication.AuthenticationService.FinishLogin: the `await Promise.resolve()` on line 79 and the subscription to `loadAccount` are folded into the returned `fetching` flag.
- UserProfile.UserProfileComponent.constructor: the request that the route subscription issues on lines 74-78 is not returned by the constructor; Load returns that request and is called again for each new route parameter.
- Router navigation after registration and in the guard is not modelled; the guard's is returned as a flag.
- Register.RegisterComponent.OnError: a reply without a JSON body, where `error.error` is null and reading its field would throw, is not modelled. The field is an `Option`.

## Findings

| source | as written | input that shows it | evidently intended | confidence | as-written member | corrected member |
|---|---|---|---|---|---|---|
| server/src/routes.rs:232-245, server/src/models/api.rs:37-44 | `LeaderboardRow` derives `FromRow` with a `total_score` field, but the query selects only `user_id`, `display_name`, `drink_days` and `total_days`. Decoding the first row fails on the missing column, and `map_to_internal_error` answers 500. | One user with one registered day in 2024, then `GET /leaderboard/2024`: 500 "no column found for name: total_score" | The ranked rows of the query: drink days descending, then display name | not executed | Routes.GetLeaderboardAsWritten, Routes.LeaderboardAsWrittenFailsOnOneDay | Routes.GetLeaderboard |
