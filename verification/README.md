# BookSpace booking core in Dafny

This project models the core of BookSpace, a venue-booking application with an Express/Mongoose
back end and a React front end. The model covers:

- the booking routes: create; the administrative status update with the list of people it
  e-mails; owner-only edit and delete; the list queries;
- the authentication routes: the in-memory signup OTP map, signup, login, and the
  forgot / verify / reset password flow whose code lives on the user document;
- the place routes: create, `$set` update, delete without cascade, get by id, and the
  "popular places" aggregation pipeline;
- the admin dashboard counts;
- the three Mongoose schemas, with their required paths, defaults and the unique e-mail index;
- four pieces of client logic: the booking form, the venue form, the password-recovery wizard
  and the route guard.

Each collection is a sequence of documents (`Store.Table`), in the order an unsorted `find()`
returns them. `Store.UniqueIds` states that the `_id` index is unique. A route is a pure function
that takes the collection(s) and returns the HTTP response together with the collection(s)
after it. The rest of the environment comes in as parameters:

- the clock: `now`;
- the random draw: `draw`, the integer that `Math.random() * 900000` is floored to;
- bcrypt: `hash` and `compare`;
- the server's answer to a client request: `Answer`, and `callError` in the booking form.

The status update returns the e-mail recipients in sending order instead of sending mail.

JavaScript value rules appear where the code depends on them:

- `Common.Truthy`, `Common.TruthyOpt` and `Common.OrElse` model truthiness and `a || b`;
- `Auth.JsLess` models `undefined < n`, which is false;
- `Option` equality models `undefined !== undefined`, which is false.

Mongoose's `required` rejects the empty string as well as a missing value (`Models.Required`).
Every `save()` validates the whole document. `findByIdAndUpdate` runs no validators.

| file | module |
|---|---|
| common.dfy | `Common`: Option, Response, truthiness |
| store.dfy | `Store`: collections, findById, put/remove, count, filter, descending sort |
| models.dfy | `Models`: Booking, Place, User schemas, defaults, database invariant |
| bookings.dfy | `Bookings`: booking routes |
| auth.dfy | `Auth`: OTP, signup, login, password reset |
| places.dfy | `Places`: place routes and the popular pipeline |
| stats.dfy | `Stats`: dashboard figures |
| booking_modal.dfy | `BookingModal`: facility toggle, place change, submit check |
| venue_modal.dfy | `VenueModal`: venue form and facility list editing |
| forgot_password_modal.dfy | `ForgotPasswordModal`: step indicator, wizard transitions, timer |
| private_route.dfy | `PrivateRoute`: route guard |

## Model

| member | source | states |
|---|---|---|
| Models.NewBooking | backend/src/models/Booking.cjs:3-44 | a booking document builds exactly when the title is non-empty, both times are present and every requested facility has a name and an e-mail; it then has status 'pending', no reason, requestedAt = now and an empty facility list by default |
| Models.EndBeforeStartIsValid | backend/src/models/Booking.cjs:22-29 | the schema puts no order on start and end: a booking ending before it starts is valid |
| Models.AnyStatusIsValid | backend/src/models/Booking.cjs:30-33 | status is a free string: any value keeps a valid booking valid |
| Models.NewPlace | backend/src/models/Place.cjs:3-37 | a place builds exactly when the name is non-empty, a capacity is given and every facility has name, e-mail and message; status defaults to 'available', facilities to [], both timestamps to now; details and location are optional |
| Models.NewUser | backend/src/models/User.cjs:3-30 | a user builds exactly when name, e-mail and password are non-empty; role defaults to 'user', date to now, phone and both reset fields stay as given/absent |
| Models.FindByEmail | backend/src/routes/auth.cjs:28 | `findOne({email})`, as send-otp, login, forgot, verify and reset call it (lines 28, 129, 182, 220, 248), finds a user with that e-mail, and finds none exactly when no user has it |
| Models.FindByEmailUnique | backend/src/models/User.cjs:8-12 | under the unique index, the user found by e-mail is the one that has it |
| Models.InsertUser | backend/src/routes/auth.cjs:73-85 | the signup save succeeds exactly when both the id and the e-mail are new under the unique index of User.cjs lines 8-12, and then preserves both unique indexes |
| Bookings.Create | backend/src/routes/bookings.cjs:19-39 | succeeds exactly when the booking validates and the id is new; the stored and returned booking is the one built from the request: its place, title, description, times and facilities are those supplied, it belongs to the caller, is 'pending' and has requestedAt = now; any failure is a 500 that stores nothing |
| Bookings.CreateThenGet | backend/src/routes/bookings.cjs:19-39 | after a create the new booking is found under its id, other ids are unaffected and the id index stays unique |
| Bookings.FacilityEmails | backend/src/routes/bookings.cjs:82-95 | the addresses written to are exactly the non-empty facility e-mails; with well-formed facilities there is one per facility, in list order |
| Bookings.Recipients | backend/src/routes/bookings.cjs:72-107 | 'approved' notifies the owner then the facility contacts; 'rejected' the owner only; any other status nobody |
| Bookings.UpdateStatus | backend/src/routes/bookings.cjs:44-114 | unknown id: 404 with nothing changed; otherwise the status is set whatever it was, reason only on 'rejected', every other field kept, no other booking touched; mail goes out only on success, to `Recipients` of the stored owner |
| Bookings.UpdateStatusNotifies | backend/src/routes/bookings.cjs:57-109 | on a consistent database with owner and place present the update succeeds, notifies 1 + one per facility on approval (1 on rejection, 0 otherwise) and keeps the database consistent |
| Bookings.DanglingPlaceFailsAfterCommit | backend/src/routes/bookings.cjs:63-68 | a booking whose place is gone gets a 500 with its new status already saved and no mail |
| Bookings.Merge | backend/src/routes/bookings.cjs:140-145 | each field takes the supplied value only when truthy; status, owner, reason and requestedAt are never touched |
| Bookings.MergeEmptyIsIdentity | backend/src/routes/bookings.cjs:140-145 | an edit that supplies nothing truthy leaves the booking as it was |
| Bookings.Edit | backend/src/routes/bookings.cjs:119-153 | 404 exactly when missing, else 401 exactly when not the owner, else 400 exactly when not pending; for the owner of a pending booking it succeeds exactly when the merged booking validates (otherwise a 500); every failure leaves the store unchanged; success writes the merged booking to that id only |
| Bookings.EditFrozenAfterDecision | backend/src/routes/bookings.cjs:136-138 | once a booking is no longer pending, no edit changes the store |
| Bookings.Delete | backend/src/routes/bookings.cjs:158-178 | 404 when missing, 401 when not the owner; otherwise that booking is gone whatever its status and every other id still finds its booking |
| Bookings.DeleteRemovesOne | backend/src/routes/bookings.cjs:171 | under a unique index, delete removes exactly the one document at its position and keeps the rest in order |
| Bookings.MyBookings | backend/src/routes/bookings.cjs:183-192 | exactly the caller's bookings |
| Bookings.Recent | backend/src/routes/bookings.cjs:197-206 | min(5, caller's count) of the caller's bookings, none more often than it is stored, newest requestedAt first, and none left out is newer than one kept |
| Bookings.Pending | backend/src/routes/bookings.cjs:211-222 | exactly the pending bookings |
| Bookings.Approved | backend/src/routes/bookings.cjs:227-235 | exactly the approved bookings, in non-increasing eventStartTime |
| Bookings.ApprovedAfterUpdate | backend/src/routes/bookings.cjs:57-63 | a booking approved by the status route is listed by the approved query |
| Auth.GenerateOtp | backend/src/routes/auth.cjs:33 | the generated code is six decimal digits whose value is 100000 + draw, in [100000, 999999] |
| Auth.ParseDecimalOfDecimal | backend/src/routes/auth.cjs:33 | reading back the printed digits gives the number |
| Auth.SendOtp | backend/src/routes/auth.cjs:23-52 | an e-mail that has a user gets 400 'User already exists' with the map unchanged; otherwise only that e-mail's entry is (over)written with a fresh code and now |
| Auth.CheckSignupOtp | backend/src/routes/auth.cjs:62-70 | 'Invalid OTP' exactly when the entry is missing or the code differs, checked before expiry; 'OTP has expired' exactly when now − timestamp > 600000 |
| Auth.Signup | backend/src/routes/auth.cjs:57-118 | an OTP failure is a 400 with that message; success appends one user with the request's name, e-mail and phone, the hashed password, role defaulting to 'user', date = now and no reset code pending; removes only that e-mail's entry, and keeps both indexes unique |
| Auth.SendOtpThenSignup | backend/src/routes/auth.cjs:23-88 | the code send-otp issues signs up once within ten minutes (boundary included), and a second signup with it is 'Invalid OTP' |
| Auth.SignupExpiresAfterWindow | backend/src/routes/auth.cjs:68-70 | one millisecond past ten minutes the matching code is refused as expired |
| Auth.Login | backend/src/routes/auth.cjs:123-141 | 'User not registered' for an unknown e-mail before any password check; then 'Password not matching' exactly when compare fails |
| Auth.LoginUnknownIgnoresPassword | backend/src/routes/auth.cjs:129-133 | for an unknown e-mail, the answer does not depend on the password or the comparison |
| Auth.ForgotPassword | backend/src/routes/auth.cjs:177-210 | unknown e-mail: 400 'User not found' exactly, nothing changed; otherwise only that user's code and expiry (now + 600000) change |
| Auth.VerifyOtp | backend/src/routes/auth.cjs:215-238 | accepts exactly when the user exists, the stored code equals the supplied one (absent equals absent) and the expiry is not before now; never writes |
| Auth.ResetPassword | backend/src/routes/auth.cjs:243-272 | the same guard as verify; success stores the new hash and clears both OTP fields of that user, whose other fields are unchanged, and touches no other user |
| Auth.VerifyAgreesWithReset | backend/src/routes/auth.cjs:227-264 | verify-otp and reset-password accept exactly the same requests |
| Auth.ForgotThenVerify | backend/src/routes/auth.cjs:188-233 | the code forgot-password stores verifies until its expiry instant inclusive and not after |
| Auth.ResetConsumesCode | backend/src/routes/auth.cjs:259-264 | after a successful reset no code string verifies any more |
| Auth.ResetWithoutCodeAccepted | backend/src/routes/auth.cjs:254 | a reset request with no code is accepted for a user who has no reset pending |
| Auth.ResetPasswordChecked | backend/src/routes/auth.cjs:254-264 | with the intended guard, a reset succeeds only with an issued, matching, unexpired code, and then acts as the route does |
| Auth.CheckedResetNeedsIssuedCode | backend/src/routes/auth.cjs:254 | with the intended guard, a user with no pending code can never be reset |
| Places.CreatePlace | backend/src/routes/places.cjs:9-18 | succeeds exactly when the place validates and the id is new, appending it; otherwise a 500 storing nothing |
| Places.CreatePlaceThenGet | backend/src/routes/places.cjs:9-18 | the new place is found with status and createdAt defaulted, others unaffected, ids unique |
| Places.ApplyPatch | backend/src/routes/places.cjs:29 | `$set` overwrites exactly the supplied keys and keeps the others; updatedAt is not refreshed |
| Places.PatchLaws | backend/src/routes/places.cjs:29 | an empty `$set` is the identity and a `$set` is idempotent |
| Places.UpdateSkipsValidation | backend/src/routes/places.cjs:29 | the update can empty a required field of a valid place |
| Places.UpdatePlace | backend/src/routes/places.cjs:23-35 | unknown id: 404 and nothing changes; otherwise the patch is applied to that place only and returned |
| Places.UpdateThenGet | backend/src/routes/places.cjs:23-35 | get-by-id after an update returns what the update returned |
| Places.DeletePlace | backend/src/routes/places.cjs:40-52 | unknown id: 404 exactly, nothing changes; otherwise only that place goes, users and bookings are untouched |
| Places.DeletePlaceLeavesDangling | backend/src/routes/places.cjs:46 | bookings of a deleted place remain and now point at no place; the database stays consistent |
| Places.GetPlace | backend/src/routes/places.cjs:93-104 | 404 exactly when the id is unknown, otherwise the stored place |
| Places.Keys | backend/src/routes/places.cjs:60 | the group keys are the distinct placeId values of the bookings |
| Places.GroupSound | backend/src/routes/places.cjs:60 | every group's count is the number of bookings with its key, at least one |
| Places.GroupComplete | backend/src/routes/places.cjs:60 | every placeId carried by a booking has its group |
| Places.Join | backend/src/routes/places.cjs:63-73 | the inner join keeps every group exactly when all of them name existing places |
| Places.JoinSound | backend/src/routes/places.cjs:63-80 | every row comes from one group and carries the name and capacity of the place with that id |
| Places.JoinComplete | backend/src/routes/places.cjs:63-73 | every group naming an existing place yields a row |
| Places.JoinSorted | backend/src/routes/places.cjs:61-73 | the join keeps the descending count order |
| Places.Top | backend/src/routes/places.cjs:60-62 | at most five groups, in non-increasing count |
| Places.Popular | backend/src/routes/places.cjs:57-88 | at most five rows, in non-increasing booking count |
| Places.PopularRow | backend/src/routes/places.cjs:59-80 | each row's name and capacity are those of the existing place with its id and its count is the number of bookings referencing that place |
| Places.PopularIsTop | backend/src/routes/places.cjs:61-62 | for every tie order, a place left out of the list has no more bookings than any place in it |
| Places.LimitBeforeJoin | backend/src/routes/places.cjs:62-73 | when one of the first five groups names no existing place, fewer than five rows come back |
| Places.PopularIsJoinOfTop | backend/src/routes/places.cjs:59-73 | the route is the join of the first five of a descending-sorted permutation of the groups |
| Stats.DashboardStats | backend/src/routes/stats.cjs:9-29 | totalPlaces is the number of places, activeBookings the size of the approved list, pendingApprovals the size of the pending list; the other four figures are 0, '0%', '0%', 0 and every change is empty |
| Stats.CountsBounded | backend/src/routes/stats.cjs:12-13 | active plus pending never exceeds the number of bookings |
| Stats.ApprovalMovesOne | backend/src/routes/stats.cjs:11-13 | approving a pending booking moves exactly one from the pending to the active figure and leaves the place count |
| BookingModal.Toggle | frontend/src/components/shared/BookingModal.jsx:46-48 | toggling flips whether the facility's name is selected: when it was not, the facility is appended at the end; when it was, the result is `WithoutName` of the selection, which keeps every entry with another name, in order and as often as it occurs |
| BookingModal.WithoutNameAppend | frontend/src/components/shared/BookingModal.jsx:47 | the name filter works entry by entry: filtering a concatenation concatenates the filtered parts, which with the single-entry case fixes the result exactly |
| BookingModal.ToggleTwice | frontend/src/components/shared/BookingModal.jsx:46-48 | toggling an unselected facility twice restores the selection |
| BookingModal.KeepOffered | frontend/src/components/shared/BookingModal.jsx:41 | the kept selection is exactly the selected entries whose name the new place offers; a single entry is kept exactly when offered |
| BookingModal.KeepOfferedAppend | frontend/src/components/shared/BookingModal.jsx:41 | the filter keeps order: filtering a concatenation is concatenating the filtered parts, which with the single-entry case fixes the result exactly |
| BookingModal.PlaceChanged | frontend/src/components/shared/BookingModal.jsx:36-43 | with no place id nothing happens; otherwise the offered list becomes that place's facilities and the selection becomes `KeepOffered` of it, keeping only offered names in their order; an unknown place clears it |
| BookingModal.PlaceChangedIdempotent | frontend/src/components/shared/BookingModal.jsx:36-43 | running the place effect twice is running it once |
| BookingModal.OpenNew | frontend/src/components/shared/BookingModal.jsx:28-32 | a new form preselects the first place or none, blank fields, empty selection |
| BookingModal.OpenNewOffersFirstPlace | frontend/src/components/shared/BookingModal.jsx:28-43 | right after opening, the first place's facilities are offered and nothing is selected |
| BookingModal.Submit | frontend/src/components/shared/BookingModal.jsx:50-63 | end ≤ start sets the error and sends nothing; otherwise the details go out with the current selection, and the form closes exactly when the call does not fail |
| BookingModal.SubmitOrdersTimes | frontend/src/components/shared/BookingModal.jsx:53-58 | with both times given, a booking is sent exactly when it ends after it starts |
| BookingModal.EmptyEndIsSent | frontend/src/components/shared/BookingModal.jsx:53 | an empty end time passes the client check |
| VenueModal.InitNew | frontend/src/components/admin/VenueModal.jsx:12-20 | a new-venue form has empty fields, status 'available' and no facilities |
| VenueModal.InitEdit | frontend/src/components/admin/VenueModal.jsx:9-10 | editing copies every key of the venue and supplies an empty facility list when it has none |
| VenueModal.HandleChange | frontend/src/components/admin/VenueModal.jsx:24-27 | only the named top-level field changes |
| VenueModal.HandleChangeLaws | frontend/src/components/admin/VenueModal.jsx:24-27 | changes to different fields commute; the last change to a field wins |
| VenueModal.AddFacility | frontend/src/components/admin/VenueModal.jsx:35-37 | exactly one blank facility is appended and nothing else changes |
| VenueModal.DropIndex | frontend/src/components/admin/VenueModal.jsx:40 | filtering out index i removes exactly that entry, or nothing when i is out of range |
| VenueModal.RemoveFacility | frontend/src/components/admin/VenueModal.jsx:39-42 | exactly entry i goes and the rest keep their order; an out-of-range index changes nothing |
| VenueModal.RemoveUndoesAdd | frontend/src/components/admin/VenueModal.jsx:35-42 | removing the facility just added restores the form |
| VenueModal.HandleFacilityChange | frontend/src/components/admin/VenueModal.jsx:29-33 | only the given field of entry i changes; without such an entry nothing changes |
| VenueModal.FacilityChangeUndo | frontend/src/components/admin/VenueModal.jsx:29-33 | writing back the previous value restores the form |
| ForgotPasswordModal.StatusOf | frontend/src/components/shared/ForgotPasswordModal.jsx:10-12 | step n is completed exactly when current > n and active exactly when current = n |
| ForgotPasswordModal.ExactlyOneActive | frontend/src/components/shared/ForgotPasswordModal.jsx:9-12 | on steps 1 to 3 exactly one indicator is active, earlier ones completed, later ones upcoming |
| ForgotPasswordModal.SendOtp | frontend/src/components/shared/ForgotPasswordModal.jsx:75-90 | a plain send is ignored while the timer runs; success moves 1 to 2 only when not a resend and always sets the timer to 60 with resend disabled; failure only sets the error |
| ForgotPasswordModal.Trim | frontend/src/components/shared/ForgotPasswordModal.jsx:97 | the trimmed code is the typed one minus leading and trailing white space |
| ForgotPasswordModal.TrimOfTrimmed | frontend/src/components/shared/ForgotPasswordModal.jsx:97-115 | a code typed without surrounding white space is posted unchanged by the verify step, so verify and reset then send the same string |
| ForgotPasswordModal.VerifyOtp | frontend/src/components/shared/ForgotPasswordModal.jsx:92-105 | posts the trimmed code; success moves to step 3, failure only sets the error |
| ForgotPasswordModal.ResetPassword | frontend/src/components/shared/ForgotPasswordModal.jsx:107-123 | mismatched passwords set 'Passwords do not match' and send nothing; otherwise the untrimmed code is posted; success schedules closing |
| ForgotPasswordModal.RefusalKeepsStep | frontend/src/components/shared/ForgotPasswordModal.jsx:85-119 | a failed request never changes the step and sets an error |
| ForgotPasswordModal.TrailingSpaceBreaksReset | frontend/src/components/shared/ForgotPasswordModal.jsx:97-115 | a code typed with a trailing space verifies and is then refused by the reset request |
| ForgotPasswordModal.ResetPasswordTrimmed | frontend/src/components/shared/ForgotPasswordModal.jsx:107-123 | the reset handler sending the trimmed code, otherwise identical |
| ForgotPasswordModal.TrimmedResetFollowsVerify | frontend/src/components/shared/ForgotPasswordModal.jsx:97-115 | with the trimmed reset, a code the server verified is accepted for the reset |
| ForgotPasswordModal.Tick | frontend/src/components/shared/ForgotPasswordModal.jsx:54-62 | a positive timer drops by one per tick; at zero resend is enabled; nothing else changes |
| ForgotPasswordModal.TimerRunsOut | frontend/src/components/shared/ForgotPasswordModal.jsx:54-62 | after at least as many ticks as the timer shows, it is zero and resend is enabled |
| ForgotPasswordModal.SendBlockedWhileTimerRuns | frontend/src/components/shared/ForgotPasswordModal.jsx:54-84 | after a successful send a plain send is ignored for 59 ticks and allowed at the 60th |
| ForgotPasswordModal.Close | frontend/src/components/shared/ForgotPasswordModal.jsx:64-73 | closing returns to step 1 with message, e-mail and code cleared; the password fields stay |
| ForgotPasswordModal.CloseIdempotent | frontend/src/components/shared/ForgotPasswordModal.jsx:64-73 | closing twice is closing once, and step 1 is then active |
| PrivateRoute.Decide | frontend/src/components/shared/PrivateRoute.jsx:4-20 | login exactly when there is no (or an empty) role; dashboard exactly on an admin-only route for a non-admin; the outlet otherwise |
| PrivateRoute.GuardLaws | frontend/src/components/shared/PrivateRoute.jsx:13-19 | 'admin' always reaches the outlet; another role reaches it exactly on routes that are not admin-only |

## Left out

- Mail: nodemailer is not modelled. The status update returns its recipient list. send-otp and forgot-password return without sending. A failing transport, which the routes would answer with a 500 after their writes, is not modelled.
- JWT signing, cookies and the auth middleware: the authenticated caller is the `caller` parameter, and signup and login return only their messages and the user's name and role.
- bcrypt: `hash` and `compare` are parameters. An absent password that would make bcrypt throw is not distinguished from the empty string.
- `Date.now`, `Math.random`: `now` and `draw` are parameters. Times are integer milliseconds. Date casting, invalid dates on the server, `toLocaleString` and ISO slicing are not modelled.
- Auth.GenerateOtp: the floating-point product of `Math.random()` and 900000 is not modelled; the draw is the integer it floors to.
- `populate` projections: the status update uses only whether the owner and the place exist, and the owner's e-mail. The list queries return the stored documents without the populated fields.
- `GET /api/bookings` and `GET /api/places`: each returns its collection as stored, and there is nothing to state beyond that.
- Database errors other than validation, the capacity cast and duplicate-key failures, such as a lost connection, are not modelled.
- Ids are abstract strings. A malformed ObjectId in `:id` or in a booking's `placeId` makes Mongoose throw a CastError, which the routes answer with a 500. This is not modelled: the model answers 404 for any unknown id, and `Bookings.Create` and `Bookings.Edit` store any `placeId`.
- Bookings.UpdateStatus: `status` is always a string. A request without `status`, which unsets the field at bookings.cjs line 57, cannot be expressed.
- send-otp and the other e-mail lookups with the `email` key absent: e-mails are strings here. Mongoose would drop an undefined filter and match any user; this is not modelled.
- The shared in-memory `otpStore` under concurrent requests, and the save-then-mail sequence: requests are modelled one at a time.
- Places.ApplyPatch: a `$set` value is either castable or not (capacity only). Setting a path to `null` and unknown keys, which strict mode drops, are not modelled.
- Models.DbValid: it does not require places to be valid, because the place update writes without validation.
- Bookings.Recent and Bookings.Approved: the order between equal keys is whatever the sort gives. Only the non-increasing order and the top-five property are stated.
- Places.Popular: the tie order of `$sort` is unspecified. PopularIsTop is therefore stated for every descending permutation of the groups, not only the one `SortDesc` picks.
- The booking form's edit-mode initialisation (date formatting) and its `handleChange` are not modelled. 
- The browser's constraint validation of the booking form is not modelled: the `required`, `min` and `max` attributes of the title and time inputs (BookingModal.jsx lines 97, 106, 110) block submission before `handleSubmit` runs. `BookingModal.Submit` and its lemmas describe `handleSubmit` alone.
- VenueModal.HandleFacilityChange: the handler mutates the facility object it shares with the previous state. Only the resulting form is modelled, not the aliasing.
- ForgotPasswordModal: the `loading` flag is not modelled. The 300 ms and 2000 ms delays are collapsed: `Close` is the state after the delay, and `closing` marks that a close is scheduled. Typing into the inputs is not modelled.
- Rendering-only components and the fetch-and-render pages are not modelled. Neither is the server bootstrap.

## Findings

| source | as written | input that shows it | evidently intended | confidence | as-written member | corrected member |
|---|---|---|---|---|---|---|
| backend/src/routes/auth.cjs:254 | the reset guard rejects only when the stored code differs strictly from the supplied one or the stored expiry is before now. Both tests are false when the user has no code pending and the request has no `otp` key. verify-otp at line 227 has the same guard. | a user whose reset fields are both absent; a reset request with their e-mail and a new password, without `otp` | a reset needs an issued code that matches and has not expired | high, not executed | Auth.ResetWithoutCodeAccepted | Auth.ResetPasswordChecked (with Auth.CheckedResetNeedsIssuedCode) |
| frontend/src/components/shared/ForgotPasswordModal.jsx:115 | the verify step posts the trimmed code (line 97), but the reset step posts the code as typed | the code 123456 typed as "123456 ": verify-otp accepts "123456", then reset-password compares "123456 " with "123456" and refuses | the reset step sends the same trimmed code as the verify step | high, not executed | ForgotPasswordModal.TrailingSpaceBreaksReset | ForgotPasswordModal.ResetPasswordTrimmed (with ForgotPasswordModal.TrimmedResetFollowsVerify) |
