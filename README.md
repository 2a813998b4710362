# CareXpert appointments and accounts, modelled in Dafny

This project models two request handlers of the CareXpert backend.

The patient handlers cover:
- booking a doctor's time slot, inside a transaction guarded by a conditional write;
- cancelling an appointment;
- booking a doctor directly by date and time;
- listing available slots, upcoming and past appointments, and each doctor's next free slot;
- marking notifications read.

The user handlers cover:
- token rotation;
- signup, including joining the city community room;
- email verification and resending the verification email;
- login, logout and refresh-token exchange;
- joining and leaving a community;
- the notification listing with its pagination.

Each handler is written twice:
- As a pure function from the tables before the request to the tables after it and the response (`Schedule`, `Accounts`, `Notifications`). Lemmas in `ScheduleProofs` and `AccountProofs` state what the handler promises.
- As a method on a class whose fields are the tables (`ScheduleStore.Store`, `AccountStore.Registry`, `Notifications.Inbox`). Each method is proved to leave exactly the state the function gives and to keep the store's invariant.

The schedule invariant says:
- every referenced slot exists and ids are fresh;
- a slot is BOOKED exactly when one non-cancelled appointment holds it;
- no patient holds two overlapping active slots;
- for requests served one at a time, direct bookings are unique per doctor, date and time, and at most one is pending per patient and doctor (two direct requests that both read before either inserts can both be inserted: `ScheduleProofs.DirectRaceDoubleBooks`).

The account invariant says:
- emails are unique;
- each stored refresh token carries its user's current version;
- room names are unique;
- profile rows match user rows, and ids are fresh.

`AccountStore.Registry` keeps a ghost set of every refresh token it has issued. Its methods prove that each earlier token is refused once a newer token replaces it.

Modules:
- `Wrappers`: `Option` and `Result`.
- `Ordering`: a store `orderBy ... asc` over rows keyed by id.
- `Clock`: millisecond instants, the day window of the slot listing, and the `HH:mm` time check and rendering.
- `Text`: `trim()` and `toLowerCase()`.
- `Schedule`, `ScheduleProofs` and `ScheduleStore`: patient.controller.
- `Accounts`, `AccountProofs` and `AccountStore`: user.controller.
- `Notifications`: the notification handlers of both controllers.

Race between bookers: a slot booking is split into its reads (`SlotPrecheck`) and its writes (`CommitSlotBooking`). Several requests may all pass the reads against one snapshot and then commit in turn.

Some quirks of the handlers are modelled as written and stated as lemmas:
- a lost conditional write answers 400;
- a COMPLETED appointment can be cancelled;
- cancellation is two separate writes;
- token rotation is two separate writes;
- the direct-booking checks and its insert are not one transaction;
- the one-pending-request rule applies only to direct booking;
- the doctor's direct-booking time clash compares time strings;
- the duplicate-name check compares the typed name with stored lowercased names;
- a deactivated account can still refresh its tokens.

Foreign calls become parameters:
- the password hash comparison (`matches`);
- the password policy's verdict (`passwordValid`);
- random verification tokens and the password digest;
- the clock (`now`);
- JWT expiry (`live`);
- whether an email was delivered (`sent`).

## Model

| member | source | states |
|---|---|---|
| Ordering.OrderBy | src/controllers/patient.controller.ts:126-130 | the listing holds every row of the filter exactly once, in ascending order of the sort key |
| Ordering.FirstExists | src/controllers/patient.controller.ts:319-329 | a non-empty filter always has a first row in the store's order |
| Ordering.First | src/controllers/patient.controller.ts:319-329 | `findFirst` with `orderBy asc` returns a row no later than any other row of the filter |
| Ordering.AscendingMeans | src/controllers/patient.controller.ts:128-130 | an ascending listing has non-decreasing keys and no row twice |
| Clock.StartOfDay | src/controllers/patient.controller.ts:114-115 | midnight of the instant's day: a multiple of a day, at most the instant and less than a day before it |
| Clock.SameDay | src/controllers/patient.controller.ts:114-118 | two instants are on the same day exactly when their midnights agree |
| Clock.DayWindowMeans | src/controllers/patient.controller.ts:114-123 | the day filter `gte startOfDay, lt 23:59:59.999` holds every instant of the day except its last millisecond |
| Clock.TimePatternMeans | src/controllers/patient.controller.ts:862-867 | the time regex accepts exactly "H:mm" or "HH:mm" spellings of a clock time 00:00-23:59 |
| Clock.SpelledTimesMatch | src/controllers/patient.controller.ts:862 | both spellings of every clock time pass the regex |
| Clock.TimeOfDayMatches | src/controllers/patient.controller.ts:247 | the time a slot booking stores always passes the direct-booking time check |
| Clock.TimePatternExamples | src/controllers/patient.controller.ts:862-867 | "25:00", "24:00" and "12:60" are refused; "9:05", "09:05" and "23:59" are accepted |
| Text.TrimMeans | src/controllers/user.controller.ts:50 | the trimmed string is a slice of the input with only white space cut off each end, and neither starts nor ends with white space |
| Text.BlankMeans | src/controllers/user.controller.ts:52-58 | a field's trim is empty exactly when the field is all white space |
| Text.Lower | src/controllers/user.controller.ts:107 | lowercasing keeps the length and maps each character |
| Text.LowerIdempotent | src/controllers/user.controller.ts:107 | lowercasing twice equals lowercasing once |
| ScheduleProofs.ConditionalBookAtMostOnce | src/controllers/patient.controller.ts:232-239 | the status-guarded update books an AVAILABLE slot and reports 1; run again it writes nothing and reports 0 |
| ScheduleProofs.BookSlotFailureChangesNothing | src/controllers/patient.controller.ts:185-239 | every rejected booking leaves all tables unchanged (the transaction's rollback) |
| ScheduleProofs.BookSlotRejects | src/controllers/patient.controller.ts:177-239 | the errors in order: 403 not a patient, 400 no slot id, 404 unknown slot, 409 not AVAILABLE, 409 overlap |
| ScheduleProofs.BookSlotSucceedsIff | src/controllers/patient.controller.ts:203-239 | booking succeeds exactly for an existing AVAILABLE slot that no COMPLETED/PENDING/CONFIRMED slot appointment of the patient overlaps |
| ScheduleProofs.BookSlotEffect | src/controllers/patient.controller.ts:232-249 | a success adds exactly one PENDING appointment for the slot's doctor, linked to the slot, dated and timed at its start, with no type and no notes, under the next id, and sets the slot BOOKED; the whole new state is stated as one equation |
| ScheduleProofs.CommitHolders | src/controllers/patient.controller.ts:232-249 | after a commit, an appointment holds a slot exactly when it held it before or it is the new appointment and the slot is the booked one |
| ScheduleProofs.CommitKeepsHolding | src/controllers/patient.controller.ts:232-249 | a commit keeps "BOOKED exactly when held" and "at most one holder" |
| ScheduleProofs.CommitKeepsApart | src/controllers/patient.controller.ts:211-249 | a commit that passed the overlap check keeps the patient's active slots apart, slots existing and ids fresh |
| ScheduleProofs.CommitKeepsDirect | src/controllers/patient.controller.ts:241-249 | a slot booking keeps the direct-booking parts of the invariant |
| ScheduleProofs.BookSlotKeepsInv | src/controllers/patient.controller.ts:185-278 | slot booking preserves the schedule invariant |
| ScheduleProofs.BookedSlotStaysTaken | src/controllers/patient.controller.ts:207-209 | once a slot is BOOKED, every further booking of it is refused with 409 and changes nothing |
| ScheduleProofs.OverlappingBookingRefused | src/controllers/patient.controller.ts:211-230 | a slot overlapping one of the patient's active slot appointments is refused with 409 |
| ScheduleProofs.RacingBookersOneWins | src/controllers/patient.controller.ts:232-239 | two bookers that both passed the reads commit in turn: the first gets the slot, the second writes nothing and gets 400 |
| ScheduleProofs.CommitInTurn | src/controllers/patient.controller.ts:232-249 | bookers that all passed the reads commit one after another against the slot, each getting one result; stated by `ScheduleProofs.CommitInTurnOnBooked` and `ScheduleProofs.ManyBookersOneWins` |
| ScheduleProofs.CommitInTurnOnBooked | src/controllers/patient.controller.ts:237-239 | against a booked slot, each commit in a sequence fails and changes nothing |
| ScheduleProofs.ManyBookersOneWins | src/controllers/patient.controller.ts:232-239 | among any number of bookers that passed the reads, exactly the first succeeds, all others get 400, and one appointment is added |
| ScheduleProofs.RaceCanOverlapOnePatient | src/controllers/patient.controller.ts:211-239 | two overlapping bookings by one patient that both read before either writes both commit, breaking time-exclusivity |
| ScheduleProofs.CancelRejects | src/controllers/patient.controller.ts:487-506 | 400 when not a patient, the appointment is unknown or not the patient's, or it is already CANCELLED; a refusal changes nothing |
| ScheduleProofs.CancelEffect | src/controllers/patient.controller.ts:508-521 | a success marks the appointment CANCELLED from any other status, COMPLETED included, and makes its slot, if any, AVAILABLE; the new state is the status write followed, for a linked slot, by the slot release, and nothing else changes |
| ScheduleProofs.CancelHolders | src/controllers/patient.controller.ts:508-521 | after a cancel, every slot's holders are the former holders minus the cancelled appointment |
| ScheduleProofs.CancelKeepsHolding | src/controllers/patient.controller.ts:508-521 | cancelling keeps "BOOKED exactly when held" and "at most one holder" |
| ScheduleProofs.CancelKeepsApart | src/controllers/patient.controller.ts:508-513 | cancelling keeps active slots apart, slots existing and ids fresh |
| ScheduleProofs.CancelKeepsDirect | src/controllers/patient.controller.ts:508-513 | cancelling keeps the direct-booking parts of the invariant |
| ScheduleProofs.CancelKeepsInvLinked | src/controllers/patient.controller.ts:515-521 | cancelling a slot appointment preserves the invariant |
| ScheduleProofs.CancelKeepsInvUnlinked | src/controllers/patient.controller.ts:508-515 | cancelling a direct appointment preserves the invariant |
| ScheduleProofs.CancelKeepsInv | src/controllers/patient.controller.ts:482-536 | cancellation preserves the schedule invariant |
| ScheduleProofs.CancelTwiceRejected | src/controllers/patient.controller.ts:503-506 | a second cancellation gets 400 "already cancelled" and changes nothing |
| ScheduleProofs.CancelThenRebook | src/controllers/patient.controller.ts:515-521 | after a cancel the slot is AVAILABLE, and booking it fails only when it overlaps the booker's own appointments |
| ScheduleProofs.CancelHalfDoneBreaksInv | src/controllers/patient.controller.ts:508-521 | after only the first write of a cancel, the slot is BOOKED yet held by nothing |
| ScheduleProofs.DirectValidationFirst | src/controllers/patient.controller.ts:831-867 | a direct booking that fails the input checks gets the same answer whatever the store holds, and changes nothing |
| ScheduleProofs.DirectTimeExamples | src/controllers/patient.controller.ts:862-867 | "25:00" is refused with 400 and "9:05" passes, before the store is read |
| ScheduleProofs.ValidateDirectMeans | src/controllers/patient.controller.ts:838-867 | the input checks pass exactly for a patient, a doctor id, a parseable date, a type ONLINE/OFFLINE or none and a regex-valid time; the type defaults to OFFLINE |
| ScheduleProofs.BookDirectEffect | src/controllers/patient.controller.ts:870-953 | after the input checks: 404s for an unknown doctor or patient, 409 for a pending request with the doctor, 409 for a PENDING/CONFIRMED clash on (doctor, date, time); otherwise one PENDING slotless appointment is added under the next id, the id counter moves on, and the slots, doctors and patients stay as they were |
| ScheduleProofs.SlotlessInsertKeepsSlots | src/controllers/patient.controller.ts:945-953 | inserting a slotless appointment under a fresh id keeps the slot parts of the invariant |
| ScheduleProofs.DirectInsertKeepsDirect | src/controllers/patient.controller.ts:902-953 | an insert that passed both clash checks keeps direct times unique and one pending request per patient and doctor |
| ScheduleProofs.BookDirectKeepsInv | src/controllers/patient.controller.ts:823-1003 | direct booking preserves the schedule invariant |
| ScheduleProofs.PendingRuleOnlyDirect | src/controllers/patient.controller.ts:902-919 | a patient with a PENDING direct request to a doctor can still book that doctor's slot but not make a second direct request |
| ScheduleProofs.TimeSpellingsBothBooked | src/controllers/patient.controller.ts:922-942 | "09:05" and "9:05" of one doctor on one date are both accepted as pending direct bookings |
| ScheduleProofs.DirectRaceDoubleBooks | src/controllers/patient.controller.ts:902-954 | two direct requests for one doctor, date and time that both read before either inserts both pass, and their inserts leave two open appointments at that time; served in turn, the second gets 409 |
| ScheduleProofs.BookedIffExactlyOne | src/controllers/patient.controller.ts:232-249 | under the invariant, a slot is BOOKED exactly when exactly one non-cancelled appointment references it |
| ScheduleProofs.AvailableTimeSlotsMeans | src/controllers/patient.controller.ts:103-130 | the listing holds exactly the doctor's AVAILABLE slots in the chosen day's window, each once, by ascending start |
| ScheduleProofs.AvailableTimeSlotsRejects | src/controllers/patient.controller.ts:91-112 | 400 for a missing or malformed doctor id, then 404 for an unknown doctor, then 400 for an unparseable date |
| ScheduleProofs.AppointmentListMeans | src/controllers/patient.controller.ts:367-396 | the list holds exactly the patient's slot appointments on the chosen side of `now`, earliest slot first |
| ScheduleProofs.UpcomingPastSplit | src/controllers/patient.controller.ts:353-480 | upcoming (start >= now) and past (start < now) split the patient's slot appointments of every status; direct bookings are in neither |
| ScheduleProofs.NextAvailableMeans | src/controllers/patient.controller.ts:319-341 | `nextAvailable` is the doctor's earliest AVAILABLE slot starting at or after `now`, and null exactly when none exists |
| ScheduleStore.Store.CheckSlotBooking | src/controllers/patient.controller.ts:177-230 | returns the first error of the reads, and none exactly when the booking would succeed |
| ScheduleStore.Store.UpdateSlotIfAvailable | src/controllers/patient.controller.ts:232-235 | the slot becomes BOOKED only if AVAILABLE; the count is at most 1; the other tables are untouched |
| ScheduleStore.Store.CommitSlotBooking | src/controllers/patient.controller.ts:232-249 | the conditional write then the insert, or nothing when the write matched no row |
| ScheduleStore.Store.BookAppointment | src/controllers/patient.controller.ts:166-302 | leaves exactly the state of the booking transition and keeps the invariant |
| ScheduleStore.Store.RaceForSlot | src/controllers/patient.controller.ts:185-239 | two requests reading before either writes never both book the slot; if both pass the reads, the first wins and the second gets 400 |
| ScheduleStore.Store.CancelAppointment | src/controllers/patient.controller.ts:482-536 | leaves exactly the state of the cancel transition and keeps the invariant |
| ScheduleStore.Store.BookDirectAppointment | src/controllers/patient.controller.ts:823-1003 | leaves exactly the state of the direct-booking transition and keeps the invariant |
| Notifications.MarkedReadMeans | src/controllers/patient.controller.ts:1113-1138 | marking one notification sets only that row read, and only when it is the user's; a match count of 0, i.e. someone else's or unknown id, means 404 |
| Notifications.AllMarkedRead | src/controllers/patient.controller.ts:1140-1159 | every row of the user becomes read, the keys stay, other users' rows are untouched |
| Notifications.AllMarkedReadMeans | src/controllers/user.controller.ts:917-936 | after marking all the user has nothing unread, others are untouched, and it is idempotent |
| Notifications.MarkOneThenAll | src/controllers/user.controller.ts:890-936 | marking one first makes no difference to marking all |
| Notifications.Inbox.MarkNotificationAsRead | src/controllers/user.controller.ts:890-915 | updates the rows in place as the filtered update does; succeeds exactly for the user's own notification, else 404 |
| Notifications.Inbox.MarkAllNotificationsAsRead | src/controllers/patient.controller.ts:1140-1159 | updates every unread row of the user in place; nothing of the user stays unread |
| Notifications.CeilDiv | src/controllers/user.controller.ts:852 | `Math.ceil(total / limit)` bracketed by multiples of the limit, for either sign of the limit |
| Notifications.Newest | src/controllers/user.controller.ts:832-834 | exactly the user's notification ids, each once, newest first |
| Notifications.Window | src/controllers/user.controller.ts:835-836 | the rows `skip .. skip + take`: `take` of them when all exist, the rest of the list when the window runs past its end, none when `skip` is past it |
| Notifications.NewestCountsAll | src/controllers/user.controller.ts:839-841 | the total equals the user's notification count |
| Notifications.DefaultListing | src/controllers/user.controller.ts:830-852 | with no query values the listing is the ten newest of the user's notifications, page 1 of ceil(total/10) |
| Notifications.RowOnPage | src/controllers/user.controller.ts:835-836 | for a positive limit, row i is item i mod limit of page i div limit + 1 |
| Notifications.PageNonEmptyIff | src/controllers/user.controller.ts:835-852 | a page from 1 on has items exactly when its number is at most the page count |
| Notifications.PaginateEdges | src/controllers/user.controller.ts:835-852 | limit 0 gives no items and a null page count; page 0 or below fails with 500 for every positive limit |
| Accounts.Least | src/controllers/user.controller.ts:85-87 | the row an unordered lookup returns: absent exactly when nothing matches, else the smallest matching id |
| AccountProofs.GenerateTokenMeans | src/controllers/user.controller.ts:18-30 | a rotation raises the version by one, stores the new refresh token carrying user and new version, and changes nothing else |
| AccountProofs.GenerateTokenUnknownUser | src/controllers/user.controller.ts:33-35 | for an unknown user it fails with 500 and changes nothing |
| AccountProofs.RotationHalfDone | src/controllers/user.controller.ts:18-30 | a rotation is the version increment followed by the token store; between the two writes the stored token no longer agrees with the version and is refused as a version mismatch |
| AccountProofs.RefreshRejects | src/controllers/user.controller.ts:533-581 | the refusal of each check in source order: no token, then a garbled, foreign or expired one, then missing claims, an unknown user, a token other than the stored one, and a version mismatch, all 401 |
| AccountProofs.RefreshIssuesOnlyOnSuccess | src/controllers/user.controller.ts:528-607 | a refresh succeeds exactly when the checks pass; a refusal changes nothing and a pass is exactly a rotation for the checked user |
| AccountProofs.RefreshCheckMeans | src/controllers/user.controller.ts:533-581 | the refresh checks pass exactly for the user's stored refresh token at the current version, while it is live |
| AccountProofs.OnlyLatestAccepted | src/controllers/user.controller.ts:571-583 | right after a rotation the new token is accepted while live and no other token is |
| AccountProofs.RotationRevokesEarlier | src/controllers/user.controller.ts:18-30 | every refresh token of the user issued at a version up to the old one is refused afterwards |
| AccountProofs.LogoutRevokesAll | src/controllers/user.controller.ts:504-510 | after logout no token at all is accepted for the user |
| AccountProofs.LogoutMeans | src/controllers/user.controller.ts:504-510 | logout clears the stored token and raises the version by one; nothing else changes |
| AccountProofs.ReplayRejected | src/controllers/user.controller.ts:571-583 | a refresh token that was exchanged is refused as revoked when presented again |
| AccountProofs.StaleVersionRejected | src/controllers/user.controller.ts:571-581 | a token below the user's current version is refused |
| AccountProofs.VersionCheckRedundant | src/controllers/user.controller.ts:577-581 | while stored tokens agree with versions, the version check never decides a refusal |
| AccountProofs.AccessTokenRefused | src/controllers/user.controller.ts:540-549 | an access token, signed with the other secret, is refused with 401 |
| AccountProofs.RefreshIgnoresDeactivation | src/controllers/user.controller.ts:562-583 | the refresh checks do not look at `deletedAt` |
| AccountProofs.CookieFirst | src/controllers/user.controller.ts:530-531 | the cookie's token is used whenever present, the body's only otherwise |
| AccountProofs.LoginCheckMeans | src/controllers/user.controller.ts:426-466 | login passes exactly for a non-blank identifier naming, case-insensitively, a live verified user whose password matches |
| AccountProofs.DeactivatedBeforePassword | src/controllers/user.controller.ts:449-457 | a deactivated account gets 403 before the password is compared |
| AccountProofs.UnverifiedAfterPassword | src/controllers/user.controller.ts:455-466 | an unverified account gets 403 only when the password matches; a wrong password gets 401 first |
| AccountProofs.LoginIgnoresCase | src/controllers/user.controller.ts:436-443 | the identifier matches email or name ignoring case |
| AccountProofs.LoginIssuesOnlyOnSuccess | src/controllers/user.controller.ts:423-498 | tokens are issued and the tables change only when every login check passes |
| AccountProofs.FindByEmailMeans | src/controllers/user.controller.ts:220-222 | with unique emails the lookup finds exactly the user with that email |
| AccountProofs.FindByEmailStable | src/controllers/user.controller.ts:248-255 | rewriting a row without touching its email leaves every email lookup unchanged |
| AccountProofs.VerifyEmailMeans | src/controllers/user.controller.ts:230-255 | an unverified user is verified exactly with the stored token before its expiry, which clears token and expiry; a verified user is told so; refusals change nothing |
| AccountProofs.VerifyEmailRejects | src/controllers/user.controller.ts:214-227 | missing query values get 400, an unknown email 404 |
| AccountProofs.VerifyEmailIdempotent | src/controllers/user.controller.ts:230-233 | once verified, every further verification reports "already verified" and changes nothing |
| AccountProofs.ResendThenVerify | src/controllers/user.controller.ts:311-320 | after a resend the new token verifies the user exactly until 24 hours later, delivered or not |
| AccountProofs.ResendInvalidatesEarlier | src/controllers/user.controller.ts:314-320 | after a resend any other token is refused |
| AccountProofs.ResendMeans | src/controllers/user.controller.ts:289-328 | blank email 400, unknown 404, verified user left as is, an unverified user gets the new token valid for 24 hours with every other row and table unchanged, undelivered email 500 with the new token already stored |
| AccountProofs.SignupRejectsNoChange | src/controllers/user.controller.ts:52-98 | a refused signup changes nothing |
| AccountProofs.SignupCheckPasses | src/controllers/user.controller.ts:52-98 | a passing signup had non-blank name, email and password, the specialty and clinic location of a doctor or the location of a patient, a valid password, and no user with its email or exactly its trimmed name |
| AccountProofs.SignupFieldsFirst | src/controllers/user.controller.ts:52-82 | when all checks pass, the field checks pass |
| AccountProofs.SignupNoClash | src/controllers/user.controller.ts:85-98 | when all checks pass, no stored user has the email or the exact trimmed name |
| AccountProofs.SignupFieldsPass | src/controllers/user.controller.ts:52-82 | passing field checks mean a non-blank name, email and password, a non-blank specialty and clinic location for a doctor, a non-blank location for a patient, and a valid password |
| AccountProofs.SignupFieldCheckMeans | src/controllers/user.controller.ts:52-82 | the field checks pass exactly when name, email and password are non-blank, a doctor gives specialty and clinic location, a patient gives a location, and the password is valid |
| AccountProofs.SignupDuplicateRejects | src/controllers/user.controller.ts:85-98 | with the field checks passed, a stored user with exactly the trimmed name gives 409 "taken" first, then one with the email gives 409 "exists"; neither changes anything |
| AccountProofs.SignupRefused | src/controllers/user.controller.ts:52-98 | a signup whose checks fail answers that check's error and changes nothing |
| AccountProofs.NoClashAfterInsert | src/controllers/user.controller.ts:85-98 | when no stored user and not the added user has a given email or name, no user of the enlarged table has them |
| AccountProofs.SignupCheckOtherTables | src/controllers/user.controller.ts:84-98 | with passing field checks, any user table with no user of the form's email or exact name passes all signup checks |
| AccountProofs.SignupPassesAfter | src/controllers/user.controller.ts:85-98 | a passing signup still passes after a user with another email and name is added |
| AccountProofs.SignupAccepted | src/controllers/user.controller.ts:104-179 | a passing signup returns the new id and the tables of the transaction |
| AccountProofs.CreatedParts | src/controllers/user.controller.ts:104-175 | the transaction adds exactly the user row and the profile row under the next id, and the room membership |
| AccountProofs.JoinCityMeans | src/controllers/user.controller.ts:128-174 | joining a city keeps room names unique and leaves exactly one room of that name, holding the user |
| AccountProofs.SignupEffect | src/controllers/user.controller.ts:100-175 | a success adds one unverified user with the lowercased trimmed name, the email, a token valid 24 hours, adds the doctor or patient profile row, and joins the single room of their city |
| AccountProofs.SecondSignupSameEmail | src/controllers/user.controller.ts:85-98 | once an email is registered every further signup with it is refused, and one whose fields pass is refused with 409 |
| AccountProofs.DuplicateNameAccepted | src/controllers/user.controller.ts:85-107 | a name with a capital letter registers twice under two emails, leaving two users with the same stored name |
| AccountProofs.JoinCommunityMeans | src/controllers/user.controller.ts:1007-1039 | joining succeeds exactly for an existing room the user is not in; it adds only that membership, with users, profiles and the other rooms unchanged |
| AccountProofs.JoinTwiceRejected | src/controllers/user.controller.ts:1016-1029 | a second join gets 400 and changes nothing |
| AccountProofs.JoinThenLeave | src/controllers/user.controller.ts:1002-1080 | leaving right after joining restores the tables exactly |
| AccountProofs.LeaveCommunityMeans | src/controllers/user.controller.ts:1055-1071 | leaving removes only that membership, with users, profiles and the other rooms unchanged, and is idempotent; an unknown room gets 404 |
| AccountProofs.RefreshKeepsInv | src/controllers/user.controller.ts:528-607 | refresh preserves the account invariant |
| AccountProofs.LoginKeepsInv | src/controllers/user.controller.ts:423-498 | login preserves the account invariant |
| AccountProofs.CreatedKeepsInv | src/controllers/user.controller.ts:104-179 | the signup transaction preserves the account invariant when the checks passed |
| AccountProofs.SignupKeepsInv | src/controllers/user.controller.ts:38-208 | signup preserves the account invariant |
| AccountProofs.UserRowUpdateKeepsInv | src/controllers/user.controller.ts:248-255 | rewriting a user row with the same email and token fields preserves the invariant |
| AccountProofs.VerifyEmailKeepsInv | src/controllers/user.controller.ts:210-283 | verification preserves the account invariant |
| AccountProofs.ResendKeepsInv | src/controllers/user.controller.ts:285-341 | resending preserves the account invariant |
| AccountStore.CreatedKeepsValid | src/controllers/user.controller.ts:104-179 | a passing signup keeps the invariant and the bound on issued tokens |
| AccountStore.RowUpdateStaysBelow | src/controllers/user.controller.ts:18-22 | a row rewrite with a version no lower keeps every issued token at or below its user's version |
| AccountStore.Registry.GenerateToken | src/controllers/user.controller.ts:15-36 | the state of the rotation; the new refresh token joins the issued set; every refresh token issued to the user before is refused from now on |
| AccountStore.Registry.Logout | src/controllers/user.controller.ts:500-526 | the state of logout; afterwards no token of the user is accepted |
| AccountStore.Registry.RefreshAccessToken | src/controllers/user.controller.ts:528-607 | the state of the refresh; on success the presented token is refused from then on |
| AccountStore.Registry.Login | src/controllers/user.controller.ts:423-498 | the state of login: the checks in order, then a rotation |
| AccountStore.Registry.Signup | src/controllers/user.controller.ts:38-208 | the state of signup; keeps the invariant |
| AccountStore.Registry.CreateAccount | src/controllers/user.controller.ts:104-179 | writes the user row, the profile row and the city room membership under the next id |
| AccountStore.Registry.JoinCityRoom | src/controllers/user.controller.ts:128-146 | the room named after the city, found or else created, gains the user |
| AccountStore.Registry.VerifyEmail | src/controllers/user.controller.ts:210-283 | the state of verification; keeps the invariant |
| AccountStore.Registry.ResendVerificationEmail | src/controllers/user.controller.ts:285-341 | the state of the resend; keeps the invariant |
| AccountStore.Registry.JoinCommunity | src/controllers/user.controller.ts:1002-1048 | the state of the join; keeps the invariant |
| AccountStore.Registry.LeaveCommunity | src/controllers/user.controller.ts:1050-1080 | the state of the leave; keeps the invariant |
| Schedule.SlotPrecheck | src/controllers/patient.controller.ts:177-230 | the reads of a slot booking; their meaning is stated by `ScheduleProofs.BookSlotRejects` and `ScheduleProofs.BookSlotSucceedsIff` |
| Schedule.ConditionalBook | src/controllers/patient.controller.ts:232-235 | the status-guarded update; stated by `ScheduleProofs.ConditionalBookAtMostOnce` |
| Schedule.CommitSlotBooking | src/controllers/patient.controller.ts:232-249 | the writes of a slot booking; stated by `ScheduleProofs.CommitHolders`, `ScheduleProofs.RacingBookersOneWins` and `ScheduleProofs.CommitInTurnOnBooked` |
| Schedule.SlotAppointment | src/controllers/patient.controller.ts:241-249 | the row a slot booking inserts: PENDING, the slot's doctor, dated at its start and timed at its HH:mm, with no type and no notes; stated by `ScheduleProofs.BookSlotEffect` |
| Schedule.BookSlot | src/controllers/patient.controller.ts:166-302 | `bookAppointment`; stated by `ScheduleProofs.BookSlotSucceedsIff`, `ScheduleProofs.BookSlotEffect`, `ScheduleProofs.BookSlotFailureChangesNothing` and `ScheduleProofs.BookSlotKeepsInv` |
| Schedule.Cancel | src/controllers/patient.controller.ts:482-536 | `cancelAppointment`; stated by `ScheduleProofs.CancelRejects`, `ScheduleProofs.CancelEffect` and `ScheduleProofs.CancelKeepsInv` |
| Schedule.MarkCancelled | src/controllers/patient.controller.ts:508-513 | the first write of a cancellation, the status set to CANCELLED; stated by `ScheduleProofs.CancelEffect`, `ScheduleProofs.CancelHolders` and `ScheduleProofs.CancelHalfDoneBreaksInv` |
| Schedule.ReleaseSlot | src/controllers/patient.controller.ts:515-521 | the second write of a cancellation, the linked slot set to AVAILABLE; stated by `ScheduleProofs.CancelEffect`, `ScheduleProofs.CancelHolders` and `ScheduleProofs.CancelKeepsInvLinked` |
| Schedule.ValidateDirect | src/controllers/patient.controller.ts:831-867 | the input checks of direct booking; stated by `ScheduleProofs.ValidateDirectMeans` and `ScheduleProofs.DirectValidationFirst` |
| Schedule.BookDirect | src/controllers/patient.controller.ts:823-1003 | `bookDirectAppointment`; stated by `ScheduleProofs.BookDirectEffect` and `ScheduleProofs.BookDirectKeepsInv` |
| Schedule.DirectAppointment | src/controllers/patient.controller.ts:945-954 | the row a direct booking inserts: PENDING, no slot, the requested date, time and type, and the notes when non-empty; stated by `ScheduleProofs.BookDirectEffect` and `ScheduleProofs.DirectInsertKeepsDirect` |
| Schedule.AvailableTimeSlots | src/controllers/patient.controller.ts:85-164 | `availableTimeSlots`; stated by `ScheduleProofs.AvailableTimeSlotsMeans` and `ScheduleProofs.AvailableTimeSlotsRejects` |
| Schedule.AppointmentList | src/controllers/patient.controller.ts:357-396 | the shared query of the two appointment lists; stated by `ScheduleProofs.AppointmentListMeans` |
| Schedule.UpcomingAppointments | src/controllers/patient.controller.ts:353-417 | `getUpcomingAppointments`; stated by `ScheduleProofs.UpcomingPastSplit` |
| Schedule.PastAppointments | src/controllers/patient.controller.ts:419-480 | `getPastAppointments`; stated by `ScheduleProofs.UpcomingPastSplit` |
| Schedule.NextAvailable | src/controllers/patient.controller.ts:319-341 | the `nextAvailable` of `fetchAllDoctors`; stated by `ScheduleProofs.NextAvailableMeans` |
| Notifications.MarkedRead | src/controllers/patient.controller.ts:1113-1138 | `markNotificationAsRead`'s filtered update; stated by `Notifications.MarkedReadMeans` |
| Notifications.Paginate | src/controllers/user.controller.ts:832-852 | one page and its counts; stated by `Notifications.RowOnPage`, `Notifications.PageNonEmptyIff` and `Notifications.PaginateEdges` |
| Notifications.GetNotifications | src/controllers/user.controller.ts:827-862 | `getNotifications`; stated by `Notifications.DefaultListing` and `Notifications.NewestCountsAll` |
| Accounts.GenerateToken | src/controllers/user.controller.ts:15-36 | `generateToken`; stated by `AccountProofs.GenerateTokenMeans`, `AccountProofs.GenerateTokenUnknownUser`, `AccountProofs.RotationHalfDone` and `AccountProofs.RotationRevokesEarlier` |
| Accounts.RaiseVersion | src/controllers/user.controller.ts:18-22 | the first write of `generateToken` on its own, the version increment; stated by `AccountProofs.RotationHalfDone` |
| Accounts.Logout | src/controllers/user.controller.ts:500-526 | `logout`; stated by `AccountProofs.LogoutMeans` and `AccountProofs.LogoutRevokesAll` |
| Accounts.IncomingToken | src/controllers/user.controller.ts:530-531 | the token read from cookie or body; stated by `AccountProofs.CookieFirst` |
| Accounts.RefreshCheck | src/controllers/user.controller.ts:533-581 | the refresh checks; stated by `AccountProofs.RefreshCheckMeans`, `AccountProofs.RefreshRejects`, `AccountProofs.AccessTokenRefused` and `AccountProofs.StaleVersionRejected` |
| Accounts.Refresh | src/controllers/user.controller.ts:528-607 | `refreshAccessToken`; stated by `AccountProofs.RefreshIssuesOnlyOnSuccess`, `AccountProofs.ReplayRejected`, `AccountProofs.OnlyLatestAccepted` and `AccountProofs.RefreshKeepsInv` |
| Accounts.LoginCheck | src/controllers/user.controller.ts:426-466 | the login checks in order; stated by `AccountProofs.LoginCheckMeans`, `AccountProofs.DeactivatedBeforePassword` and `AccountProofs.UnverifiedAfterPassword` |
| Accounts.Login | src/controllers/user.controller.ts:423-498 | `login`; stated by `AccountProofs.LoginIssuesOnlyOnSuccess` and `AccountProofs.LoginKeepsInv` |
| Accounts.SignupFieldCheck | src/controllers/user.controller.ts:50-82 | the field checks of `signup`; stated by `AccountProofs.SignupFieldCheckMeans` |
| Accounts.SignupCheck | src/controllers/user.controller.ts:50-98 | all checks of `signup`; stated by `AccountProofs.SignupCheckPasses` and `AccountProofs.SignupDuplicateRejects` |
| Accounts.NewUser | src/controllers/user.controller.ts:105-117 | the new user row; stated by `AccountProofs.SignupEffect` |
| Accounts.NewProfile | src/controllers/user.controller.ts:120-154 | the doctor row with specialty and clinic location, or the patient row with the location or null; stated by `AccountProofs.CreatedParts` and `AccountProofs.SignupEffect` |
| Accounts.City | src/controllers/user.controller.ts:128-173 | the city room the new user joins, the clinic location for a doctor and the location otherwise, none when empty; stated by `AccountProofs.CreatedParts` and `AccountProofs.SignupEffect` |
| Accounts.JoinCity | src/controllers/user.controller.ts:128-174 | the city room found by name or created; stated by `AccountProofs.JoinCityMeans` |
| Accounts.Created | src/controllers/user.controller.ts:104-179 | the signup transaction; stated by `AccountProofs.CreatedParts` and `AccountProofs.CreatedKeepsInv` |
| Accounts.Signup | src/controllers/user.controller.ts:38-208 | `signup`; stated by `AccountProofs.SignupEffect`, `AccountProofs.SignupRejectsNoChange` and `AccountProofs.SignupKeepsInv` |
| Accounts.VerifyEmail | src/controllers/user.controller.ts:210-283 | `verifyEmail`; stated by `AccountProofs.VerifyEmailMeans`, `AccountProofs.VerifyEmailRejects` and `AccountProofs.VerifyEmailIdempotent` |
| Accounts.ResendVerification | src/controllers/user.controller.ts:285-341 | `resendVerificationEmail`; stated by `AccountProofs.ResendMeans` and `AccountProofs.ResendThenVerify` |
| Accounts.JoinCommunity | src/controllers/user.controller.ts:1002-1048 | `joinCommunity`; stated by `AccountProofs.JoinCommunityMeans` and `AccountProofs.JoinTwiceRejected` |
| Accounts.LeaveCommunity | src/controllers/user.controller.ts:1050-1080 | `leaveCommunity`; stated by `AccountProofs.LeaveCommunityMeans` and `AccountProofs.JoinThenLeave` |
| Clock.MatchesTimePattern | src/controllers/patient.controller.ts:862-863 | the direct-booking time regex; stated by `Clock.TimePatternMeans` |
| Clock.TimeOfDay | src/controllers/patient.controller.ts:247 | `toTimeString().slice(0, 5)`, five characters; stated by `Clock.TimeOfDayMatches` |
| Text.Trim | src/controllers/user.controller.ts:50 | `trim()`, no longer than its input; stated by `Text.TrimMeans` and `Text.BlankMeans` |

## Left out

- Real concurrency is not modelled. The interleaving of two slot bookings is modelled as reads on one snapshot followed by writes in turn. Database isolation levels and retries are not modelled.
- Time is milliseconds since the epoch on a server whose local time is UTC. `setHours` in another time zone, `toTimeString` formatting other than `HH:mm`, and the parsing of date strings are not modelled. A date argument is already parsed, or unparseable.
- Ids are natural-number counters. UUID generation and the `isValidUUID` check are folded into optional ids.
- A store lookup with no ordering (`findFirst`) is modelled as returning the row with the smallest id. Ties in `orderBy` are broken by id.
- The response bodies are not modelled: included relations, selected columns and formatted fields. Cache invalidation (`cacheService.delPattern`) is not modelled either.
- The password hash, JWT signing and verification, expiry, random token generation, `validatePassword` and email delivery are parameters.
- Text.Lower only lowercases ASCII capitals. Unicode case mapping is not modelled.
- Accounts.NewUser assumes that a missing role becomes PATIENT in the store; the handler passes `role` through to the insert as it came. Role strings outside the enum, which the store would reject, are not modelled.
- Accounts.GenerateToken merges the handler's two updates, which run outside a transaction, into one result. The state between them, where a failure leaves the version raised under a 500, is stated by `AccountProofs.RotationHalfDone` but is not the outcome of any handler function.
- Accounts.Logout stores an absent refresh token where the handler stores the empty string. The string never equals a presented token, so nothing turns on it.
- Accounts.Signup ignores the outcome of the verification email, as the handler does, and so does not carry it.
- Notifications.Paginate refuses a negative limit with 500; the store would instead return the last |limit| rows of the listing. `page` and `limit` are integers: non-numeric query strings, which become NaN, are not modelled.
- The unread-count handler of user.controller is not modelled as a handler. The `Unread` set it counts is part of `Notifications`.
- The notification handlers of the two controllers are identical at the store level and are modelled once.
- The remaining handlers are not modelled: doctor search, prescriptions and their PDF, city rooms, profile handlers, admin signup, community member listing and the doctor-side appointment transitions. Other source files are not part of this model.
