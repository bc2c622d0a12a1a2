# Movie Explorer core, modelled in Dafny

Movie Explorer is a Rails JSON API for a movie catalogue. This project models its core:

- **Movie records.** Validations, scopes, and the push notification sent when a movie is created.
- **User records.** Role enum, validations, the JWT payload, and the default subscription created with every user.
- **Subscriptions.** Plan and status lists and the plan predicates.
- **The JWT deny-list.**
- **The CanCan permission table.**
- **The FCM push service.**
- **Controllers:**
  - the application controller's authentication and supervisor gates;
  - the movies controller (listing with title/genre filters and Kaminari pagination, show, create, update, destroy, and the subscription access rule);
  - the users controller (current profile, device token, notification toggle);
  - the sign-up action of the registrations controller.

Each source file is one module. The modules Text, Seqs, Validation and Wrappers hold shared helpers: string predicates, list operations, Rails-style validation errors, and `Option`.

- **Stores.** Database tables are values: `map<nat, Movie>`, `map<nat, User>`, and a `seq` of deny-list rows.
- **Actions.** Every action is a pure function from the request and the stores to the response and the stores afterwards.
- **Validation errors.** These are a set of `(attribute, kind)` pairs, in the style of Rails' `errors.details`. Every failing attribute is reported, not just the first.

Some things are inputs, not model code:

- the JWT decoder;
- the FCM client;
- the email format regular expression;
- the current year;
- the ids the database assigns;
- the jti generated on create;
- Devise's `active_for_authentication?`;
- the subscription predicates `active?` / `free?` and the user's `premium_access`. The source calls these but never defines them.

## Model

| member | source | states |
|---|---|---|
| Validation.Presence | app/models/movie.rb:6-7 | `presence: true` adds "can't be blank" exactly when the value is blank: empty or made only of Unicode whitespace, no-break spaces included |
| Validation.Inclusion | app/models/subscription.rb:7-8 | `inclusion: { in: list }` rejects exactly the values missing from the list, nil included |
| Validation.Numericality | app/models/movie.rb:8-11 | no error exactly when the value is nil and nil is allowed, or is a number that meets every bound and, when integers are required, is written as an integer literal; a number written otherwise (2000.0) then gets exactly "must be an integer"; errors only on that attribute |
| Text.LastNonEmpty | app/controllers/application_controller.rb:14 | `split(...).last` yields the last non-empty field: it is non-empty and every field after it is empty; nil exactly when every field is empty |
| Text.LastNonEmptyIndex | app/controllers/application_controller.rb:14 | the position found holds a non-empty field and every field after it is empty, or it is -1 and all are empty |
| Text.FieldsWithoutSeparator | app/controllers/application_controller.rb:14 | a string without the separator splits into itself alone |
| Text.SplitLastAfterPrefix | app/controllers/application_controller.rb:14 | "Bearer " + t, with t non-empty and free of "Bearer ", splits to t |
| Text.Lower | app/controllers/api/v1/movies_controller.rb:13 | case folding maps each of A-Z to the letter 32 code points above it in a-z and fixes every other character |
| Text.LowerString | app/controllers/api/v1/movies_controller.rb:13 | the folded string keeps the length, turns every capital into the letter 32 code points above it, and keeps every character that was not a capital |
| Text.ExactMatchIgnoringCase | app/controllers/api/v1/movies_controller.rb:12-14 | a title containing the query verbatim always matches ILIKE |
| Text.ContainsIgnoringCaseFolds | app/controllers/api/v1/movies_controller.rb:12-14 | lower-casing the title or the query first never changes whether ILIKE matches |
| Text.EqualUpToCaseMatches | app/controllers/api/v1/movies_controller.rb:12-14 | a title and a query that differ only in case match each other, whichever is the query |
| Text.MatrixMatchesIgnoringCase | app/controllers/api/v1/movies_controller.rb:12-14 | "MATRIX" finds "matrix" and "matrix" finds "MATRIX" |
| Text.LowerTwice | app/controllers/api/v1/movies_controller.rb:13 | folding twice is folding once |
| Text.NatToString | app/models/movie.rb:56 | `id.to_s` is a non-empty string of decimal digits in canonical form: it starts with 0 exactly for the id 0, and has no leading zero otherwise |
| Text.NatToStringRoundTrip | app/models/movie.rb:56 | reading back the printed id gives the id |
| Text.Strip | app/models/user.rb:6 | `strip` keeps a segment of the string that neither starts nor ends with NUL or ASCII whitespace, with only such characters before and after it |
| Text.StripTwice | app/models/user.rb:6 | stripping twice is stripping once |
| Text.StripPadded | app/models/user.rb:6 | a space on each side of a string that neither starts nor ends with a strip space is removed exactly |
| Text.StripExample | app/models/user.rb:6 | " a b\n" strips to "a b": the inner space stays |
| Text.EqualUpToCaseMatchesWord | app/controllers/api/v1/movies_controller.rb:16-17 | a genre equal to the query up to case matches `\m…\M` when the query starts and ends with a word character |
| Text.WordOfGenreMatches | app/controllers/api/v1/movies_controller.rb:16-17 | "drama" matches the whole word in "Crime, Drama" |
| Text.PartOfWordDoesNotMatch | app/controllers/api/v1/movies_controller.rb:16-17 | "Fi" does not match "Sci-Fin" as a whole word, although it is a case-insensitive substring |
| Seqs.Filter | app/models/movie.rb:16-17 | `where` keeps exactly the rows satisfying the condition, in their order and each as often as in the table, and never adds rows |
| Seqs.UniqAfter | app/models/movie.rb:52 | `uniq` on the rest of a list keeps each element not seen yet once, as a subsequence of the list ordered by first occurrence, and the result has no repeats |
| Seqs.Uniq | app/models/movie.rb:52 | `uniq` keeps exactly the elements of the list, each once, as a subsequence ordered by first occurrence (each kept element occurs before any later one does), and never lengthens it |
| Seqs.RowsAreTable | app/controllers/api/v1/movies_controller.rb:10 | `Movie.all` read in any listing of the table's ids yields exactly the table's rows |
| Seqs.UniqAfterIdentity | app/models/movie.rb:52 | `uniq` leaves a repeat-free list unchanged |
| Subscriptions.Validate | app/models/subscription.rb:2-8 | plan_type and status are reported exactly when missing or not in their lists, and user exactly when the owner does not exist |
| Subscriptions.Default | app/models/user.rb:38-40 | the default subscription is a basic, active one owned by the new user |
| Subscriptions.ValidIff | app/models/subscription.rb:2-8 | a subscription is valid exactly when plan and status are listed and the owner exists |
| Subscriptions.BasicXorPremium | app/models/subscription.rb:9-10 | `basic?` and `premium?` never both hold; a valid subscription satisfies exactly one |
| Subscriptions.ValidBelongsToUser | app/models/subscription.rb:2 | a valid subscription belongs to an existing user |
| Subscriptions.DefaultIsValid | app/models/user.rb:38-40 | `Subscription.create!` in the user callback passes validation, so it cannot raise |
| Subscriptions.BothFieldsReported | app/models/subscription.rb:7-8 | an unknown plan and an unknown status are both reported as not included |
| Users.RoleOfCode | app/models/user.rb:8 | the stored integer 0/1 decodes to the role; any other code is rejected |
| Users.RoleOfName | app/models/user.rb:8 | "user"/"supervisor" decode to the role; any other name is rejected |
| Users.RoleEncodingRoundTrip | app/models/user.rb:8 | a role's integer and its name both decode back to it |
| Users.NewUser | app/models/user.rb:8 | `User.new` is a regular user with notifications off and no password, device token or jti |
| Users.JwtPayload | app/models/user.rb:20-22 | the extra token claim is exactly `role`, and it names the user's role |
| Users.MobilePatternIff | app/models/user.rb:11 | the mobile regex matches exactly: an optional "+" with a 1-4 digit code not starting with 0, then 9-14 digits |
| Users.ShapeMatches | app/models/user.rb:11 | every string of the described mobile shape matches the regex |
| Users.MatchHasShape | app/models/user.rb:11 | every string the mobile regex matches has the described shape |
| Users.MobileExamples | app/models/user.rb:11 | "123" is rejected; "+1234567890" and "1234567890" are accepted |
| Users.CheckPassword | app/models/user.rb:14 | the scan accepts exactly the passwords with a lower, an upper, a digit and a special character, only allowed characters, and length at least 8 |
| Users.PasswordExamples | app/models/user.rb:14 | "Password@123" is strong; "password123" is not |
| Users.NameErrors | app/models/user.rb:10 | name errors appear exactly when the name is blank or its length is outside 3..100 |
| Users.NbspNameRejected | app/models/user.rb:10 | a name of three no-break spaces is reported as blank |
| Users.NewUserInvalid | app/models/user.rb:10 | a user with no attributes is invalid: its name is blank and too short |
| Users.MobileErrors | app/models/user.rb:11 | mobile errors appear exactly when the number does not match or another row already has it |
| Users.PasswordErrors | app/models/user.rb:14 | a password error appears exactly when a non-blank password is not strong; a blank one is not checked |
| Users.Validate | app/models/user.rb:10-15 | each attribute is reported exactly when its own rule fails; the record is valid exactly when all rules hold |
| Users.MatchImpliesPresent | app/models/user.rb:11 | a number matching the pattern is never blank |
| Users.DeviceTokenIrrelevant | app/models/user.rb:10-15 | changing the device token never changes validity |
| Users.NotificationFlagIrrelevant | app/models/user.rb:13 | once the notification flag is set, its value never changes validity |
| Users.Create | app/models/user.rb:2-3 | creating a user stores its columns, without the virtual password, and appends one basic, active, valid subscription for it, leaving earlier subscriptions alone |
| Users.CreateGivesSubscription | app/models/user.rb:38-40 | after creation the user owns a basic, active subscription |
| Users.NormalizeEmail | app/models/user.rb:6 | the email Devise validates and saves has no capital letter |
| Users.NormalizeEmailStrips | app/models/user.rb:6 | the saved email is the lower-cased one with exactly the strip spaces at its two ends removed |
| Users.NormalizeEmailTwice | app/models/user.rb:6 | normalising an already normalised email changes nothing, so a later save keeps it |
| Users.NormalizeEmailExample | app/models/user.rb:6 | " Ann@Example.com " becomes "ann@example.com" |
| Users.NormalizedTwice | app/models/user.rb:6 | normalising a record twice is normalising it once |
| JwtBlacklist.IsRevoked | app/models/jwt_blacklist.rb:4-6 | `revoked?` holds exactly when some deny-list row has the payload's jti |
| JwtBlacklist.Revoke | app/models/jwt_blacklist.rb:8-10 | `revoke` appends exactly one row with the payload's jti and expiry and keeps the rest: the rows grow by exactly that one record as a multiset |
| JwtBlacklist.RevokeThenRevoked | app/models/jwt_blacklist.rb:4-10 | after `revoke(p)`, `revoked?(p)` holds |
| JwtBlacklist.RevokeOnlyAdds | app/models/jwt_blacklist.rb:4-10 | revocation is monotone, and the answer for every other jti is unchanged |
| Ability.Permissions | app/models/ability.rb:4-14 | admins may do anything; supervisors may do anything to movies and nothing else; everyone else, nil included, may only read (index/show) movies |
| Ability.NobodyIsPlainUser | app/models/ability.rb:5 | a nil user has exactly the rights of a regular user |
| FcmService.NonEmptyStrings | app/services/fcm_service.rb:8 | the cleaned list has no empty string, and every non-empty token keeps its number of occurrences |
| FcmService.NonEmptyStringsInOrder | app/services/fcm_service.rb:8 | the cleaned list is a subsequence of the tokens with nil read as "": the kept tokens stay in the order they were given |
| FcmService.SendNotification | app/services/fcm_service.rb:7-19 | without a non-empty token the client is not called and the reply is 200 "No valid device tokens"; otherwise the client gets exactly the cleaned tokens with title, body and data, and its response is returned |
| FcmService.NonEmptyStringsKeepsPresent | app/services/fcm_service.rb:8 | a list of non-empty tokens passes through cleaning unchanged |
| Movies.ContentType | app/models/movie.rb:29-39 | an attached file is reported exactly when its type is not image/jpeg or image/png; nothing is attached means no check |
| Movies.ReleaseYearErrors | app/models/movie.rb:8 | release_year errors appear exactly when the year is not written as an integer in (1880, current year + 1] |
| Movies.FloatYearRejected | app/models/movie.rb:8 | a year sent as 2000.0 is refused with "must be an integer", while 2000 passes |
| Movies.ValidFitsColumnsIff | db/migrate/20250427063714_create_movies.rb:6-9 | a valid movie fits its 4-byte `release_year` and `duration` columns exactly when neither exceeds 2147483647, and, for a current year below that, exactly when the duration does not |
| Movies.DurationOverflow | db/migrate/20250427063714_create_movies.rb:9 | a duration of 2147483648 passes validation but does not fit its column |
| Movies.RatingErrors | app/models/movie.rb:9 | rating errors appear exactly when a rating is given and is not a number in [0, 10] |
| Movies.DurationErrors | app/models/movie.rb:11 | duration errors appear exactly when the duration is not written as a positive integer |
| Movies.DescriptionErrors | app/models/movie.rb:12 | description errors appear exactly when it is blank or longer than 1000 characters |
| Movies.Validate | app/models/movie.rb:6-14 | each attribute is reported exactly when its rule fails: presence, the release-year, rating and duration bounds, description length 1000, and image types; valid exactly when all hold |
| Movies.ErrorsAccumulate | app/models/movie.rb:6-14 | a record wrong in every column reports all nine columns at once |
| Movies.PremiumScope | app/models/movie.rb:16 | `premium` keeps exactly the rows whose flag is true, as a subsequence and each as often as in the table; a NULL flag is left out |
| Movies.AccessibleToUser | app/models/movie.rb:17 | with premium access every movie is visible; otherwise, nil user included, exactly the rows whose flag is false, as a subsequence and each as often as in the table, a NULL flag left out |
| Movies.NullPremiumInNeitherScope | app/models/movie.rb:16-17 | a NULL flag is not premium to `premium?` yet is in neither scope; a set flag puts a row in exactly one of the two |
| Movies.NewMovieNotification | app/models/movie.rb:49-56 | no push exactly when no opted-in user has a non-blank token; otherwise it goes to exactly those tokens, each once, titled "New Movie Added!", with the movie title in the body and the id as `movie_id` |
| Movies.RecipientsArePlucked | app/models/movie.rb:50-52 | a non-blank plucked token is exactly a recipient's token |
| Movies.PluckedFrom | app/models/movie.rb:50-52 | each plucked token belongs to an opted-in user |
| Movies.PluckedTo | app/models/movie.rb:50-52 | every opted-in user's token is plucked |
| Movies.Deliver | app/models/movie.rb:54-56 | the notification reaches the FCM client with exactly its tokens, title, body and data |
| Movies.DeliverSendsAll | app/services/fcm_service.rb:7-19 | non-empty tokens reach the client unchanged |
| Movies.NotificationTokensNonEmpty | app/models/movie.rb:52-53 | a notification carries at least one token and no empty one |
| ApplicationController.Authenticate | app/controllers/application_controller.rb:6-34 | gates run in order (header, decode, deny-list, user lookup), and the first failure decides the 401 message; success means a valid token for an existing user |
| ApplicationController.CurrentUser | app/controllers/application_controller.rb:26-27 | `@current_user` is set exactly when authentication succeeded |
| ApplicationController.TokenAfterBearer | app/controllers/application_controller.rb:9-14 | "Bearer " + t passes the header gate and hands exactly t to the decoder |
| ApplicationController.DecoderSeesOnlyToken | app/controllers/application_controller.rb:14-16 | the result depends on the decoder only through its answer for the extracted token |
| ApplicationController.DecodeFailureIgnoresStores | app/controllers/application_controller.rb:31-32 | a token that fails to decode is refused whatever the deny-list and users hold |
| ApplicationController.RevokedBeforeLookup | app/controllers/application_controller.rb:20-29 | a revoked token is refused as revoked before the user is looked up |
| ApplicationController.RevokeThenRefused | app/controllers/application_controller.rb:20-23 | once a token's jti is revoked, the same request is refused as revoked |
| ApplicationController.EnsureSupervisor | app/controllers/application_controller.rb:36-40 | the request continues exactly for a current user with the supervisor role; otherwise 403 "Forbidden: Supervisor access required" |
| ApplicationController.RequireSupervisor | app/controllers/api/v1/movies_controller.rb:6-7 | authentication then role check: a 401 stops the chain; a signed-in non-supervisor gets 403; otherwise the signed-in user goes on |
| MoviesController.PageNumber | app/controllers/api/v1/movies_controller.rb:20 | no page gives page 1, a page of 1 or more is used as given, and a smaller one becomes 1 |
| MoviesController.Filtered | app/controllers/api/v1/movies_controller.rb:12-18 | the listing is a subsequence of the table holding each row that matches the title (case-insensitive substring) and the genre (case-insensitive whole word), each when given, as often as the table does, and no other row |
| MoviesController.Index | app/controllers/api/v1/movies_controller.rb:9-36 | the catalogue is read in a listing of its ids; 404 exactly when the page size is 0 or the offset is past the filtered rows (and within bigint); 500 exactly when the page size is positive and the offset exceeds bigint, or the page is non-empty and the page size exceeds bigint; otherwise the page is the right slice of the filtered rows, with 1 to per_page movies, and current page ≤ total pages, total count and per_page |
| MoviesController.IndexShowsMatchingMovies | app/controllers/api/v1/movies_controller.rb:9-36 | every listed movie is in the catalogue and meets each filter that was given |
| MoviesController.PageStartsInside | app/controllers/api/v1/movies_controller.rb:20-33 | a page starts inside the list exactly when its number is at most total_pages |
| MoviesController.PageNonEmptyIff | app/controllers/api/v1/movies_controller.rb:20-33 | with a positive page size and offset and page size within bigint, page k is listed exactly when k ≤ total_pages |
| MoviesController.HugePerPageFails | app/controllers/api/v1/movies_controller.rb:20-22 | a `per_page` beyond bigint gives 500 exactly when the listing is non-empty or the page is past the first; the first page of an empty listing still gives 404 |
| MoviesController.DefaultPagination | spec/requests/movies_spec.rb:20-31 | fifteen movies with default paging give ten on page 1 of 2, fifteen in all |
| MoviesController.Assign | app/controllers/api/v1/movies_controller.rb:61-62 | each of the ten attributes takes the sent value or uploaded file when its key was sent and keeps the stored one otherwise |
| MoviesController.AssignNothing | app/controllers/api/v1/movies_controller.rb:77 | assigning no attributes changes nothing |
| MoviesController.Create | app/controllers/api/v1/movies_controller.rb:60-68 | created exactly for a supervisor sending a non-empty `movie` hash with valid attributes whose release year and duration fit their 4-byte columns: stored under the new id, with the new-movie push to the users table; valid attributes that do not fit give 500; a missing or empty hash gives 400; invalid attributes from a supervisor give 422 with exactly the validation errors of the new movie; otherwise 401/403; in every failure the catalogue is unchanged and no push is sent |
| MoviesController.Update | app/controllers/api/v1/movies_controller.rb:71-83 | updated exactly for a supervisor, a known id, a non-empty `movie` hash and a valid result that fits its 4-byte columns, and only that entry changes; a valid result that does not fit gives 500; a missing hash gives 500 and an empty one 400; invalid attributes for a known id give 422 with exactly the validation errors of the assigned movie; otherwise 401/403 or 404; in every failure the catalogue is unchanged |
| MoviesController.Destroy | app/controllers/api/v1/movies_controller.rb:85-93 | 204 exactly for a supervisor and a known id, removing exactly that entry; otherwise 401/403 or 404 with the catalogue unchanged |
| MoviesController.CreateThenShow | app/controllers/api/v1/movies_controller.rb:51-68 | `show` after `create`: the created movie is then shown under its new id, and every other id shows what it did before, whatever the outcome |
| MoviesController.UpdateThenShow | app/controllers/api/v1/movies_controller.rb:51-83 | `show` after `update`: an updated movie is then shown with its new attributes |
| MoviesController.DestroyThenShow | app/controllers/api/v1/movies_controller.rb:51-93 | `show` after `destroy`: a destroyed movie is then not found, and every other id shows what it did before, whatever the outcome |
| MoviesController.NonSupervisorForbidden | app/controllers/api/v1/movies_controller.rb:121-127 | a signed-in regular user gets 403 from create, update and destroy, and the catalogue is unchanged |
| MoviesController.CanAccessMovie | app/controllers/api/v1/movies_controller.rb:129-145 | access exactly for an active, non-free subscription that is not basic on a movie whose `premium?` holds (a NULL flag reads as false) |
| MoviesController.AccessMatrix | app/controllers/api/v1/movies_controller.rb:138-144 | with an active, non-free, valid subscription: free movies are open to all, premium movies only to premium plans |
| UsersController.Current | app/controllers/api/v1/users_controller.rb:7-9 | the signed-in user's id, email and role name (decoding back to the role); 401 otherwise |
| UsersController.Save | app/controllers/api/v1/users_controller.rb:12-15 | `update` validates the changed row with its email lower-cased and stripped, and stores that normalised row exactly when it is valid against the other rows; otherwise 422 with its errors and the table unchanged |
| UsersController.UpdateDeviceToken | app/controllers/api/v1/users_controller.rb:11-17 | the token is stored, on the record with its email normalised, exactly when that normalised record was valid; an invalid one gives 422 with exactly its validation errors; otherwise the table is unchanged |
| UsersController.ToggleNotifications | app/controllers/api/v1/users_controller.rb:19-25 | succeeds exactly when the toggled record, email normalised, is valid, and then the stored flag and the reply are the negated flag; an invalid one gives 422 with exactly its validation errors; otherwise the table is unchanged |
| UsersController.OwnRowIrrelevant | app/models/user.rb:11-15 | uniqueness for row id ignores what row id itself holds |
| UsersController.ToggleTwiceRestores | app/controllers/api/v1/users_controller.rb:19-25 | toggling twice restores the original flag and row, up to the email normalisation the first save applied: Ruby's `!` applied twice gives back a boolean, and normalising twice is normalising once |
| RegistrationsController.Permit | app/controllers/users/registrations_controller.rb:31-33 | exactly the five permitted keys survive, with their values |
| RegistrationsController.PermitIdempotent | app/controllers/users/registrations_controller.rb:31-33 | permitting twice is permitting once |
| RegistrationsController.Build | app/controllers/users/registrations_controller.rb:8-10 | the built user takes the permitted attributes, its email lower-cased and stripped as Devise does before validation, is a regular user, and has notifications off and no jti |
| RegistrationsController.BuildNormalizesEmail | app/controllers/users/registrations_controller.rb:8-10 | an email sent as " Ann@Example.com " is validated and stored as "ann@example.com" |
| RegistrationsController.SignUp | app/controllers/users/registrations_controller.rb:7-33 | 400 exactly for a missing or empty `user` hash; the user, email normalised, is stored with a fresh jti and a default subscription exactly when valid, then 201 with id, email, role and token if active, else 200; 422 with the errors otherwise, and nothing stored |
| RegistrationsController.SignUpMakesRegularUser | app/controllers/users/registrations_controller.rb:9-12 | a stored sign-up is a regular user with a basic, active subscription |
| RegistrationsController.UnpermittedKeysIgnored | app/controllers/users/registrations_controller.rb:32 | an extra key such as `role` has no effect on the outcome of a non-empty hash; alone it turns the 400 into a 422 for a user with no attributes |

## Left out

- Devise's `:validatable` module is library code and is not modelled: email presence and uniqueness, password presence, length and confirmation. `password_confirmation` is therefore permitted but never compared.
- Token signing, HS256 verification and expiry are left out. The decoder is an input that returns claims or the error it would raise.
- The sessions controller, the subscriptions controller, Stripe, the admin pages and the serializer are left out. They are outside the core.
- The FCM transport is left out. The client is an input, and the `send_new_movie_notification` rescue and logging only write to the log.
- Attachment storage is left out. An uploaded file is its content type, and a non-file `poster`/`banner` parameter is ignored.
- The order of attaching and updating is not modelled. In the source, `update` attaches files to the persisted record before validating the other attributes, so a rejected update may keep a new file. The model applies all changes together.
- The database's own pattern matching is approximated:
  - ILIKE becomes case-insensitive substring match over ASCII letters, and a `%` or `_` in the title is taken literally;
  - the `~* '\m…\M'` genre match becomes a case-insensitive whole-word match, with ASCII letters, digits and `_` as word characters.
- Kaminari parses `per_page` from a string. The model takes that parse as the `PerPage` input: absent; some line starts with a digit, giving its `to_i`, which may be 0 (for "x\n5" `to_i` is 0, so the limit is 0 and the reply is 404); or anything else, which gives the default of 25. A negative page also becomes page 1.
- Listing order is an input: a listing of the table's ids, each once. The source sets no order. The same holds for the users table the new-movie callback reads.
- `URI::MailTo::EMAIL_REGEXP` is an input predicate.
- Users.NormalizeEmail: lower-cases ASCII capitals only; Ruby's `downcase` also folds non-ASCII letters, and that Unicode mapping is not modelled.
- Only the 4-byte range of `release_year` and `duration` is modelled as a column limit. Strings and text are unbounded in PostgreSQL, and a `rating` is a float, which is not modelled beyond its validation.
- A raised `ActiveModel::RangeError` or a failed PostgreSQL query is modelled only as its 500 status.
- `Date.current.year` is an input.
- A numeric parameter is its raw form: nil or blank (a blank string casts to nil), not a number, an integer literal, or another number with an exact rational value. Float and decimal rounding are not modelled.
- `active?`, `free?` and `premium_access` are not defined anywhere in the source, so they are inputs. In `can_access_movie?` a nil `@current_user` gives a nil subscription, which is refused.
- `active_for_authentication?` is an input. With the Devise modules user.rb enables, it is always true.
- Show does not call `can_access_movie?`. The call is commented out in the source, and the model follows the active code. spec/requests/movies_spec.rb:70-88 still expects the older "Movie not found or access denied" reply.
- An update without a `movie` parameter gives 500, because `attach_files` indexes into nil. With an empty `movie` hash it gives 400, from `params.require`. Rails' exception rendering is not modelled beyond the status.
- A `user` or `movie` parameter that is a plain string rather than a hash is not modelled. `permit` on it would raise.
- The device-token update stores nil when the key is absent (`params.permit(:device_token)`), and accepts any token string; the source does not validate it.
