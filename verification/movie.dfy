/** app/models/movie.rb: the catalogue entry, its validations, its scopes
    and the push notification sent after a movie is created. */
module Movies {
  import opened Wrappers
  import opened Text
  import opened Validation
  import Seqs
  import Users
  import FcmService

  /** A movies row. Text columns hold "" for nil (every check treats the
      two alike); `premium` is a nullable boolean column (None is NULL);
      `poster` / `banner` hold the content type of an attached file, None
      when nothing is attached. */
  datatype Movie = Movie(
    title: string,
    genre: string,
    releaseYear: Numeric,
    rating: Numeric,
    director: string,
    duration: Numeric,
    description: string,
    premium: Option<bool>,
    poster: Option<string>,
    banner: Option<string>)

  const ImageTypes: seq<string> := ["image/jpeg", "image/png"]
  const ImageMessage: string := "must be a JPEG or PNG image"

  // ---------------------------------------------------------------------
  // Validations (movie.rb:6-14, 29-39)
  // ---------------------------------------------------------------------

  /** The conditions each attribute must meet; `currentYear` is the year
      the class was loaded in. */
  predicate ReleaseYearOk(v: Numeric, currentYear: int) {
    v.IntegerLiteral? && 1880 < v.i <= currentYear + 1
  }
  predicate RatingOk(v: Numeric) {
    v.Absent? || (v.IsNumber() && 0.0 <= v.Value() <= 10.0)
  }
  predicate DurationOk(v: Numeric) {
    v.IntegerLiteral? && v.i > 0
  }
  predicate DescriptionOk(d: string) {
    !Blank(d) && |d| <= 1000
  }
  predicate ImageOk(contentType: Option<string>) {
    contentType.None? || contentType.value in ImageTypes
  }

  /** `poster_content_type` / `banner_content_type`, run only when a file
      is attached. */
  function ContentType(attribute: string, contentType: Option<string>): (errors: Errors)
    ensures Only(errors, attribute) && (errors == {} <==> ImageOk(contentType))
  {
    if contentType.Some? then Check(contentType.value in ImageTypes, attribute, Message(ImageMessage)) else {}
  }

  /** `release_year`: an integer in (1880, currentYear + 1]. */
  function ReleaseYearErrors(v: Numeric, currentYear: int): (errors: Errors)
    ensures Only(errors, "release_year") && (errors == {} <==> ReleaseYearOk(v, currentYear))
  {
    var errors := Numericality("release_year", v, false, true, [GreaterThan(1880), LessThanOrEqualTo(currentYear + 1)]);
    if v.IsNumber() then MeetsPair(v.Value(), GreaterThan(1880), LessThanOrEqualTo(currentYear + 1)); errors else errors
  }

  /** `rating`: nil, or a number in [0, 10]. */
  function RatingErrors(v: Numeric): (errors: Errors)
    ensures Only(errors, "rating") && (errors == {} <==> RatingOk(v))
  {
    var errors := Numericality("rating", v, true, false, [GreaterThanOrEqualTo(0), LessThanOrEqualTo(10)]);
    if v.IsNumber() then MeetsPair(v.Value(), GreaterThanOrEqualTo(0), LessThanOrEqualTo(10)); errors else errors
  }

  /** `duration`: a positive integer. */
  function DurationErrors(v: Numeric): (errors: Errors)
    ensures Only(errors, "duration") && (errors == {} <==> DurationOk(v))
  {
    var errors := Numericality("duration", v, false, true, [GreaterThan(0)]);
    if v.IsNumber() then MeetsOne(v.Value(), GreaterThan(0)); errors else errors
  }

  /** `description`: present and at most 1000 characters. */
  function DescriptionErrors(d: string): (errors: Errors)
    ensures Only(errors, "description") && (errors == {} <==> DescriptionOk(d))
  {
    Presence("description", d) + Check(|d| <= 1000, "description", TooLong(1000))
  }

  function Validate(m: Movie, currentYear: int): (errors: Errors)
    ensures On(errors, "title") == {} <==> !Blank(m.title)
    ensures On(errors, "genre") == {} <==> !Blank(m.genre)
    ensures On(errors, "release_year") == {} <==> ReleaseYearOk(m.releaseYear, currentYear)
    ensures On(errors, "rating") == {} <==> RatingOk(m.rating)
    ensures On(errors, "director") == {} <==> !Blank(m.director)
    ensures On(errors, "duration") == {} <==> DurationOk(m.duration)
    ensures On(errors, "description") == {} <==> DescriptionOk(m.description)
    ensures On(errors, "poster") == {} <==> ImageOk(m.poster)
    ensures On(errors, "banner") == {} <==> ImageOk(m.banner)
    ensures errors == {} <==> Valid(m, currentYear)
  {
    var title := Presence("title", m.title);
    var genre := Presence("genre", m.genre);
    var year := ReleaseYearErrors(m.releaseYear, currentYear);
    var rating := RatingErrors(m.rating);
    var director := Presence("director", m.director);
    var duration := DurationErrors(m.duration);
    var description := DescriptionErrors(m.description);
    var poster := ContentType("poster", m.poster);
    var banner := ContentType("banner", m.banner);
    MovieAttributes(title, genre, year, rating, director, duration, description, poster, banner);
    title + genre + year + rating + director + duration + description + poster + banner
  }

  /** Errors from validators of other attributes never name this one. */
  lemma MovieClean(title: Errors, genre: Errors, year: Errors, rating: Errors, director: Errors,
                   duration: Errors, description: Errors, poster: Errors, banner: Errors)
    requires Only(title, "title") && Only(genre, "genre") && Only(year, "release_year")
    requires Only(rating, "rating") && Only(director, "director") && Only(duration, "duration")
    requires Only(description, "description") && Only(poster, "poster") && Only(banner, "banner")
    ensures var all := title + genre + year + rating + director + duration + description + poster + banner;
      && (Clean(all, "title") <==> title == {})
      && (Clean(all, "genre") <==> genre == {})
      && (Clean(all, "release_year") <==> year == {})
      && (Clean(all, "rating") <==> rating == {})
      && (Clean(all, "director") <==> director == {})
      && (Clean(all, "duration") <==> duration == {})
      && (Clean(all, "description") <==> description == {})
      && (Clean(all, "poster") <==> poster == {})
      && (Clean(all, "banner") <==> banner == {})
  {
  }

  /** Bookkeeping for `Validate`: each attribute's errors come from its own
      validators only. */
  lemma MovieAttributes(title: Errors, genre: Errors, year: Errors, rating: Errors, director: Errors,
                        duration: Errors, description: Errors, poster: Errors, banner: Errors)
    requires Only(title, "title") && Only(genre, "genre") && Only(year, "release_year")
    requires Only(rating, "rating") && Only(director, "director") && Only(duration, "duration")
    requires Only(description, "description") && Only(poster, "poster") && Only(banner, "banner")
    ensures var all := title + genre + year + rating + director + duration + description + poster + banner;
      && (On(all, "title") == {} <==> title == {})
      && (On(all, "genre") == {} <==> genre == {})
      && (On(all, "release_year") == {} <==> year == {})
      && (On(all, "rating") == {} <==> rating == {})
      && (On(all, "director") == {} <==> director == {})
      && (On(all, "duration") == {} <==> duration == {})
      && (On(all, "description") == {} <==> description == {})
      && (On(all, "poster") == {} <==> poster == {})
      && (On(all, "banner") == {} <==> banner == {})
  {
    MovieClean(title, genre, year, rating, director, duration, description, poster, banner);
    var all := title + genre + year + rating + director + duration + description + poster + banner;
    OnEmptyIff(all, "title");
    OnEmptyIff(all, "genre");
    OnEmptyIff(all, "release_year");
    OnEmptyIff(all, "rating");
    OnEmptyIff(all, "director");
    OnEmptyIff(all, "duration");
    OnEmptyIff(all, "description");
    OnEmptyIff(all, "poster");
    OnEmptyIff(all, "banner");
  }

  /** All attribute conditions at once. */
  predicate Valid(m: Movie, currentYear: int) {
    && !Blank(m.title) && !Blank(m.genre) && !Blank(m.director)
    && ReleaseYearOk(m.releaseYear, currentYear) && RatingOk(m.rating) && DurationOk(m.duration)
    && DescriptionOk(m.description) && ImageOk(m.poster) && ImageOk(m.banner)
  }

  /** The range of a 4-byte `integer` column, the type of `release_year`
      and `duration` (db/migrate/20250427063714_create_movies.rb). */
  const Int4Min: int := -0x8000_0000
  const Int4Max: int := 0x7FFF_FFFF

  /** The value fits a 4-byte column, as `ActiveModel::Type::Integer`
      checks when the row is written. Only integer literals can pass the
      validations of these two attributes. */
  predicate InInt4(v: Numeric) {
    v.IntegerLiteral? ==> Int4Min <= v.i <= Int4Max
  }

  /** Writing the row does not raise `ActiveModel::RangeError`. */
  predicate FitsColumns(m: Movie) {
    InInt4(m.releaseYear) && InInt4(m.duration)
  }

  /** Validation bounds both integer attributes from below only: a valid
      movie fits its columns exactly when neither value exceeds the 4-byte
      maximum, and for any current year below that maximum, exactly when the
      duration does not. */
  lemma ValidFitsColumnsIff(m: Movie, currentYear: int)
    requires Valid(m, currentYear)
    ensures FitsColumns(m) <==> m.releaseYear.i <= Int4Max && m.duration.i <= Int4Max
    ensures currentYear < Int4Max ==> (FitsColumns(m) <==> m.duration.i <= Int4Max)
  {
  }

  /** A duration of 2147483648 minutes passes validation but does not fit
      its column. */
  lemma DurationOverflow()
    ensures DurationErrors(IntegerLiteral(Int4Max + 1)) == {}
    ensures !InInt4(IntegerLiteral(Int4Max + 1))
  {
  }

  /** A release year sent as 2000.0 is refused as not an integer, even
      though its value is a whole year in range. */
  lemma FloatYearRejected(currentYear: int)
    requires currentYear >= 2000
    ensures ReleaseYearErrors(OtherNumber(2000.0), currentYear) == {FieldError("release_year", NotAnInteger)}
    ensures ReleaseYearErrors(IntegerLiteral(2000), currentYear) == {}
  {
  }

  /** A record wrong in every column reports an error on every column at
      once. */
  lemma ErrorsAccumulate(currentYear: int)
    requires currentYear >= 1880
    ensures var errs := Validate(Movie("", "", IntegerLiteral(1800), OtherNumber(11.0), "", IntegerLiteral(0), "", Some(false),
                                       Some("text/plain"), Some("text/plain")), currentYear);
      && On(errs, "title") != {} && On(errs, "genre") != {} && On(errs, "release_year") != {}
      && On(errs, "rating") != {} && On(errs, "director") != {} && On(errs, "duration") != {}
      && On(errs, "description") != {} && On(errs, "poster") != {} && On(errs, "banner") != {}
  {
    assert "text/plain"[0] != "image/jpeg"[0] && "text/plain"[0] != "image/png"[0];
    assert !ImageOk(Some("text/plain"));
    assert Blank("");
    assert !ReleaseYearOk(IntegerLiteral(1800), currentYear);
    assert !RatingOk(OtherNumber(11.0));
    assert !DurationOk(IntegerLiteral(0));
  }

  // ---------------------------------------------------------------------
  // Scopes (movie.rb:16-17)
  // ---------------------------------------------------------------------

  /** The attribute reader `premium?`: NULL reads as false. */
  predicate IsPremium(m: Movie) {
    m.premium == Some(true)
  }

  /** `scope :premium`: SQL `premium = TRUE`, which a NULL row fails. */
  function PremiumScope(movies: seq<Movie>): (r: seq<Movie>)
    ensures Seqs.Subsequence(r, movies)
    ensures forall m :: m in r <==> m in movies && m.premium == Some(true)
    ensures forall m :: multiset(r)[m] == if m.premium == Some(true) then multiset(movies)[m] else 0
  {
    Seqs.Filter(movies, (m: Movie) => m.premium == Some(true))
  }

  /** `scope :accessible_to_user`: everything for a user whose
      `premium_access` is true, otherwise (or with no user, None) the rows
      with SQL `premium = FALSE`, which a NULL row fails too. */
  function AccessibleToUser(movies: seq<Movie>, premiumAccess: Option<bool>): (r: seq<Movie>)
    ensures premiumAccess == Some(true) ==> r == movies
    ensures Seqs.Subsequence(r, movies)
    ensures premiumAccess != Some(true) ==> forall m :: m in r <==> m in movies && m.premium == Some(false)
    ensures premiumAccess != Some(true) ==>
      forall m :: multiset(r)[m] == if m.premium == Some(false) then multiset(movies)[m] else 0
  {
    if premiumAccess == Some(true) then Seqs.SubsequenceOfItself(movies); movies else Seqs.Filter(movies, (m: Movie) => m.premium == Some(false))
  }

  /** A row whose `premium` is NULL is not premium to `premium?`, yet it
      is in neither scope: it only shows up for users with premium
      access. A row that is set is in exactly one of the two. */
  lemma NullPremiumInNeitherScope(movies: seq<Movie>, m: Movie, premiumAccess: Option<bool>)
    requires m in movies
    ensures m.premium.None? ==> !IsPremium(m) && m !in PremiumScope(movies)
    ensures m.premium.None? && premiumAccess != Some(true) ==> m !in AccessibleToUser(movies, premiumAccess)
    ensures m.premium.Some? && premiumAccess != Some(true) ==>
      (m in PremiumScope(movies) <==> m !in AccessibleToUser(movies, premiumAccess))
  {
    var premium := PremiumScope(movies);
    var free := AccessibleToUser(movies, premiumAccess);
    assert m in premium <==> m.premium == Some(true);
    assert premiumAccess != Some(true) ==> (m in free <==> m.premium == Some(false));
    if m.premium.Some? {
      if m.premium.value {
        assert m.premium == Some(true);
      } else {
        assert m.premium == Some(false);
      }
    }
  }

  // ---------------------------------------------------------------------
  // New-movie notification (movie.rb:49-66)
  // ---------------------------------------------------------------------

  datatype Notification = Notification(tokens: seq<string>, title: string, body: string, data: map<string, string>)

  const NotificationTitle: string := "New Movie Added!"

  /** `User.where(notifications_enabled: true).where.not(device_token: nil)` */
  predicate Subscribed(u: Users.User) {
    u.notificationsEnabled == Some(true) && u.deviceToken.Some?
  }

  /** `pluck(:device_token).map(&:to_s)` */
  function DeviceTokens(users: seq<Users.User>): (r: seq<string>)
    ensures |r| == |users|
    ensures forall i :: 0 <= i < |users| ==> r[i] == users[i].deviceToken.GetOr("")
  {
    seq(|users|, i requires 0 <= i < |users| => users[i].deviceToken.GetOr(""))
  }

  /** A token some subscribed user has registered and that is not blank. */
  predicate Recipient(users: seq<Users.User>, t: string) {
    !Blank(t) && exists u :: u in users && Subscribed(u) && u.deviceToken == Some(t)
  }

  /** The push `after_create` sends for movie `id`, if any: the subscribed
      users' tokens, stringified, blanks dropped, duplicates dropped; none
      at all when that leaves nothing. */
  function NewMovieNotification(id: nat, m: Movie, users: seq<Users.User>): (n: Option<Notification>)
    ensures n.None? <==> forall t :: !Recipient(users, t)
    ensures n.Some? ==>
      && Seqs.NoDuplicates(n.value.tokens)
      && (forall t :: t in n.value.tokens <==> Recipient(users, t))
      && n.value.title == NotificationTitle
      && n.value.body == m.title + " has been added to the Movie Explorer collection."
      && n.value.data == map["movie_id" := NatToString(id)]
  {
    var subscribed := Seqs.Filter(users, Subscribed);
    var plucked := DeviceTokens(subscribed);
    var tokens := Seqs.Uniq(Seqs.Filter(plucked, (t: string) => !Blank(t)));
    RecipientsArePlucked(users, subscribed, plucked);
    assert forall t :: t in tokens <==> Recipient(users, t);
    if |subscribed| == 0 || |tokens| == 0 then
      None
    else
      assert Recipient(users, tokens[0]);
      Some(Notification(tokens, NotificationTitle,
                        m.title + " has been added to the Movie Explorer collection.",
                        map["movie_id" := NatToString(id)]))
  }

  lemma RecipientsArePlucked(users: seq<Users.User>, subscribed: seq<Users.User>, plucked: seq<string>)
    requires subscribed == Seqs.Filter(users, Subscribed)
    requires plucked == DeviceTokens(subscribed)
    ensures forall t :: !Blank(t) ==> (t in plucked <==> Recipient(users, t))
  {
    forall t | !Blank(t) && t in plucked ensures Recipient(users, t) {
      var i :| 0 <= i < |plucked| && plucked[i] == t;
      PluckedFrom(users, subscribed, plucked, i);
    }
    forall t | Recipient(users, t) ensures t in plucked {
      var u :| u in users && Subscribed(u) && u.deviceToken == Some(t);
      PluckedTo(users, subscribed, plucked, u);
    }
  }

  lemma PluckedFrom(users: seq<Users.User>, subscribed: seq<Users.User>, plucked: seq<string>, i: int)
    requires subscribed == Seqs.Filter(users, Subscribed)
    requires plucked == DeviceTokens(subscribed)
    requires 0 <= i < |plucked|
    ensures subscribed[i] in users && Subscribed(subscribed[i]) && subscribed[i].deviceToken == Some(plucked[i])
  {
    assert subscribed[i] in subscribed;
  }

  lemma PluckedTo(users: seq<Users.User>, subscribed: seq<Users.User>, plucked: seq<string>, u: Users.User)
    requires subscribed == Seqs.Filter(users, Subscribed)
    requires plucked == DeviceTokens(subscribed)
    requires u in users && Subscribed(u)
    ensures u.deviceToken.value in plucked
  {
    assert u in subscribed;
    var i :| 0 <= i < |subscribed| && subscribed[i] == u;
    assert plucked[i] == u.deviceToken.value;
  }

  /** Handing the notification to the FCM service: its tokens are
      non-empty strings, so the service calls its client once with exactly
      these tokens and the movie's title, body and data. Whatever the client
      answers (or raises) is only logged, so it never affects creation. */
  function Deliver(n: Notification, client: FcmService.ClientCall -> FcmService.Response): (d: FcmService.Dispatch)
    requires n.tokens != [] && "" !in n.tokens
    ensures d.call == Some(FcmService.ClientCall(n.tokens, FcmService.Options(n.title, n.body, n.data)))
    ensures d.response == client(d.call.value)
  {
    DeliverSendsAll(n.tokens, n.title, n.body, n.data, client);
    FcmService.SendNotification(AsOptions(n.tokens), n.title, n.body, n.data, client)
  }

  function AsOptions(ts: seq<string>): (xs: seq<Option<string>>)
    ensures |xs| == |ts| && forall i :: 0 <= i < |ts| ==> xs[i] == Some(ts[i])
  {
    seq(|ts|, i requires 0 <= i < |ts| => Some(ts[i]))
  }

  lemma DeliverSendsAll(ts: seq<string>, title: string, body: string, data: map<string, string>,
                        client: FcmService.ClientCall -> FcmService.Response)
    requires ts != [] && "" !in ts
    ensures FcmService.SendNotification(AsOptions(ts), title, body, data, client).call
      == Some(FcmService.ClientCall(ts, FcmService.Options(title, body, data)))
  {
    var tokens := AsOptions(ts);
    assert tokens == seq(|ts|, i requires 0 <= i < |ts| => Some(ts[i]));
    FcmService.NonEmptyStringsKeepsPresent(ts);
    assert tokens[0] in tokens && tokens[0].GetOr("") != "";
    var d := FcmService.SendNotification(tokens, title, body, data, client);
    assert d.call.Some?;
  }

  /** The tokens a notification carries are never empty strings. */
  lemma NotificationTokensNonEmpty(id: nat, m: Movie, users: seq<Users.User>)
    ensures var n := NewMovieNotification(id, m, users);
      n.Some? ==> n.value.tokens != [] && "" !in n.value.tokens
  {
    var n := NewMovieNotification(id, m, users);
    if n.Some? {
      assert Blank("");
      assert !Recipient(users, "");
      assert n.value.tokens[0] in n.value.tokens;
    }
  }
}
