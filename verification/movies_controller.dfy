/** app/controllers/api/v1/movies_controller.rb: listing with filters and
    pagination, and show / create / update / destroy over the catalogue (a
    map from id to movie). */
module MoviesController {
  import opened Wrappers
  import opened Text
  import opened Validation
  import Seqs
  import Users
  import Subscriptions
  import JwtBlacklist
  import opened Movies
  import opened ApplicationController

  type Catalog = map<nat, Movie>

  // ---------------------------------------------------------------------
  // index (movies_controller.rb:9-36)
  // ---------------------------------------------------------------------

  /** The `per_page` parameter as Kaminari's `per` reads it: absent, a
      string some line of which starts with a digit (its `to_i`, which may
      be 0, as for "x\n5"), or anything else. */
  datatype PerPage = PerPageAbsent | PerPageDigits(n: nat) | PerPageOther

  /** `params[:per_page] || 10` */
  const DefaultPerPage: nat := 10
  /** Kaminari's configured `default_per_page`, kept when `per` ignores its
      argument. */
  const KaminariDefaultPerPage: nat := 25

  function PageSize(p: PerPage): nat {
    match p
    case PerPageAbsent => DefaultPerPage
    case PerPageDigits(n) => n
    case PerPageOther => KaminariDefaultPerPage
  }

  /** `page(params[:page] || 1)`: pages below 1 mean page 1. */
  function PageNumber(page: Option<int>): (n: nat)
    ensures n >= 1
    ensures page.None? ==> n == 1
    ensures page.Some? && page.value >= 1 ==> n == page.value
    ensures page.Some? && page.value < 1 ==> n == 1
  {
    var p := page.GetOr(1);
    if p < 1 then 1 else p
  }

  predicate TitleMatches(m: Movie, query: string) {
    ContainsIgnoringCase(m.title, query)
  }

  predicate GenreMatches(m: Movie, query: string) {
    ContainsWordIgnoringCase(m.genre, query)
  }

  /** A movie meets the title and genre filters, each when its parameter
      is present. */
  predicate Matches(m: Movie, title: Option<string>, genre: Option<string>) {
    && (!BlankOpt(title) ==> TitleMatches(m, title.value))
    && (!BlankOpt(genre) ==> GenreMatches(m, genre.value))
  }

  /** The rows left by the title and genre filters, in table order and
      each matching row as often as the table holds it. */
  function Filtered(rows: seq<Movie>, title: Option<string>, genre: Option<string>): (r: seq<Movie>)
    ensures Seqs.Subsequence(r, rows)
    ensures forall m :: multiset(r)[m] == if Matches(m, title, genre) then multiset(rows)[m] else 0
    ensures forall m :: m in r <==>
      && m in rows
      && (!BlankOpt(title) ==> TitleMatches(m, title.value))
      && (!BlankOpt(genre) ==> GenreMatches(m, genre.value))
  {
    var byTitle := if !BlankOpt(title) then Seqs.Filter(rows, (m: Movie) => TitleMatches(m, title.value))
                   else (Seqs.SubsequenceOfItself(rows); rows);
    var r := if !BlankOpt(genre) then Seqs.Filter(byTitle, (m: Movie) => GenreMatches(m, genre.value))
             else (Seqs.SubsequenceOfItself(byTitle); byTitle);
    Seqs.SubsequenceTransitive(r, byTitle, rows);
    r
  }

  datatype IndexReply =
    | NoMoviesFound
    | QueryOutOfRange              // PostgreSQL refuses a LIMIT or OFFSET beyond bigint (500)
    | MoviePage(movies: seq<Movie>, currentPage: nat, totalPages: nat, totalCount: nat, perPage: nat)

  const NoMoviesMessage: string := "No movies found"

  /** The largest LIMIT or OFFSET PostgreSQL accepts. */
  const MaxBigint: int := 0x7FFF_FFFF_FFFF_FFFF

  function IndexStatus(r: IndexReply): nat {
    match r
    case NoMoviesFound => 404
    case QueryOutOfRange => 500
    case MoviePage(_, _, _, _, _) => 200
  }

  /** Rounded-up division, as Kaminari computes `total_pages`. */
  function CeilDiv(n: nat, d: nat): nat
    requires d > 0
  {
    (n + d - 1) / d
  }

  /** `index`: read the catalogue in the order the database returns it
      (`order`, a listing of its ids), filter, cut out the requested page,
      and answer 404 when the page is empty. `movies.empty?` answers a
      zero LIMIT without a query; otherwise it queries one row at the
      page's OFFSET, and rendering then queries the page with its LIMIT,
      and either query fails when its value exceeds bigint. */
  function Index(catalog: Catalog, order: seq<nat>, title: Option<string>, genre: Option<string>,
                 page: Option<int>, perPage: PerPage): (r: IndexReply)
    requires Seqs.ListsKeys(order, catalog)
    ensures var all := Filtered(Seqs.Rows(catalog, order), title, genre);
      var size := PageSize(perPage);
      var offset := Offset(PageNumber(page), size);
      && (r.NoMoviesFound? <==> size == 0 || (offset <= MaxBigint && offset >= |all|))
      && (r.QueryOutOfRange? <==> size > 0 && (offset > MaxBigint || (offset < |all| && size > MaxBigint)))
      && (r.MoviePage? ==>
            && 0 < size <= MaxBigint && offset <= MaxBigint
            && r.movies == all[offset..Min(offset + size, |all|)]
            && 1 <= |r.movies| <= size
            && r.currentPage == PageNumber(page)
            && r.totalCount == |all|
            && r.perPage == size
            && r.totalPages == CeilDiv(|all|, size)
            && r.currentPage <= r.totalPages)
  {
    var all := Filtered(Seqs.Rows(catalog, order), title, genre);
    var size := PageSize(perPage);
    var offset := Offset(PageNumber(page), size);
    if size == 0 then NoMoviesFound
    else if offset > MaxBigint then QueryOutOfRange
    else if offset >= |all| then NoMoviesFound
    else if size > MaxBigint then QueryOutOfRange
    else
      var end := Min(offset + size, |all|);
      PageStartsInside(|all|, size, PageNumber(page));
      MoviePage(all[offset..end], PageNumber(page), CeilDiv(|all|, size), |all|, size)
  }

  /** Every movie on a page is in the catalogue and meets the filters that
      were given. */
  lemma IndexShowsMatchingMovies(catalog: Catalog, order: seq<nat>, title: Option<string>, genre: Option<string>,
                                 page: Option<int>, perPage: PerPage)
    requires Seqs.ListsKeys(order, catalog)
    ensures var r := Index(catalog, order, title, genre, page, perPage);
      r.MoviePage? ==> forall m :: m in r.movies ==>
        && m in catalog.Values
        && (!BlankOpt(title) ==> TitleMatches(m, title.value))
        && (!BlankOpt(genre) ==> GenreMatches(m, genre.value))
  {
    var r := Index(catalog, order, title, genre, page, perPage);
    if r.MoviePage? {
      var all := Filtered(Seqs.Rows(catalog, order), title, genre);
      var offset := Offset(PageNumber(page), PageSize(perPage));
      var end := Min(offset + PageSize(perPage), |all|);
      assert r.movies == all[offset..end];
      PageMembers(catalog, order, title, genre, offset, end);
    }
  }

  /** Every movie in a slice of the filtered rows is in the catalogue and
      meets the filters. */
  lemma PageMembers(catalog: Catalog, order: seq<nat>, title: Option<string>, genre: Option<string>,
                    offset: nat, end: nat)
    requires Seqs.ListsKeys(order, catalog)
    requires offset <= end <= |Filtered(Seqs.Rows(catalog, order), title, genre)|
    ensures forall m :: m in Filtered(Seqs.Rows(catalog, order), title, genre)[offset..end] ==>
      && m in catalog.Values
      && (!BlankOpt(title) ==> TitleMatches(m, title.value))
      && (!BlankOpt(genre) ==> GenreMatches(m, genre.value))
  {
    var rows := Seqs.Rows(catalog, order);
    var all := Filtered(rows, title, genre);
    SliceMembers(all, offset, end);
    Seqs.RowsAreTable(catalog, order);
    forall m | m in all[offset..end]
      ensures m in catalog.Values
      ensures !BlankOpt(title) ==> TitleMatches(m, title.value)
      ensures !BlankOpt(genre) ==> GenreMatches(m, genre.value)
    {
      assert m in all;
      assert m in rows;
    }
  }

  /** A slice holds only elements of the whole. */
  lemma SliceMembers<T>(s: seq<T>, i: int, j: int)
    requires 0 <= i <= j <= |s|
    ensures forall x :: x in s[i..j] ==> x in s
  {
  }

  /** The number of rows before page `page`. */
  function Offset(page: nat, size: nat): nat
    requires page >= 1
  {
    (page - 1) * size
  }

  function Min(a: int, b: int): int {
    if a <= b then a else b
  }

  /** Multiplying by a non-negative number keeps the order. */
  lemma MulMonotone(a: int, b: int, c: nat)
    requires a <= b
    ensures a * c <= b * c
  {
  }

  /** Page `page` starts inside a list of n rows exactly when it is at
      most the last page. */
  lemma PageStartsInside(n: nat, size: nat, page: nat)
    requires size > 0 && page >= 1
    ensures Offset(page, size) < n <==> page <= CeilDiv(n, size)
  {
    var q := CeilDiv(n, size);
    var rem := (n + size - 1) % size;
    assert n + size - 1 == q * size + rem;
    if page <= q {
      MulMonotone(page - 1, q - 1, size);
    } else {
      MulMonotone(q, page - 1, size);
    }
  }

  /** Page k is non-empty exactly when 1 <= k <= total_pages (for a
      positive page size), provided the page size and the offset fit a
      bigint. */
  lemma PageNonEmptyIff(catalog: Catalog, order: seq<nat>, title: Option<string>, genre: Option<string>,
                        page: Option<int>, perPage: PerPage)
    requires Seqs.ListsKeys(order, catalog)
    requires PageSize(perPage) > 0
    ensures Index(catalog, order, title, genre, page, perPage).MoviePage? <==>
      && PageSize(perPage) <= MaxBigint && Offset(PageNumber(page), PageSize(perPage)) <= MaxBigint
      && PageNumber(page) <= CeilDiv(|Filtered(Seqs.Rows(catalog, order), title, genre)|, PageSize(perPage))
  {
    PageStartsInside(|Filtered(Seqs.Rows(catalog, order), title, genre)|, PageSize(perPage), PageNumber(page));
  }

  /** Fifteen movies, no filter, default paging: ten on page 1, two pages,
      fifteen in all. */
  lemma DefaultPagination(catalog: Catalog, order: seq<nat>)
    requires Seqs.ListsKeys(order, catalog)
    requires |order| == 15
    ensures var r := Index(catalog, order, None, None, None, PerPageAbsent);
      r.MoviePage? && |r.movies| == 10 && r.currentPage == 1 && r.totalPages == 2 && r.totalCount == 15
  {
  }

  /** A `per_page` beyond bigint fails every page with 500, except the
      first page of an empty listing, which still gives 404. */
  lemma HugePerPageFails(catalog: Catalog, order: seq<nat>, page: Option<int>, n: nat)
    requires Seqs.ListsKeys(order, catalog)
    requires n > MaxBigint
    ensures Index(catalog, order, None, None, page, PerPageDigits(n)).QueryOutOfRange? <==>
      order != [] || PageNumber(page) > 1
  {
    var all := Filtered(Seqs.Rows(catalog, order), None, None);
    assert all == Seqs.Rows(catalog, order);
    assert |all| == |order|;
    if PageNumber(page) > 1 {
      MulMonotone(1, PageNumber(page) - 1, n);
    }
  }

  // ---------------------------------------------------------------------
  // show / create / update / destroy (movies_controller.rb:51-99)
  // ---------------------------------------------------------------------

  /** The `movie` parameter hash: the permitted keys (`movie_params`), None
      for a key not sent; `premium` is Some(None) when sent as null or "",
      which the boolean column stores as NULL; `poster` / `banner` carry the
      content type of an uploaded file; `otherKeys` tells whether any key
      outside the permitted list was sent as well. */
  datatype MovieParams = MovieParams(
    title: Option<string>,
    genre: Option<string>,
    releaseYear: Option<Numeric>,
    rating: Option<Numeric>,
    director: Option<string>,
    duration: Option<Numeric>,
    description: Option<string>,
    premium: Option<Option<bool>>,
    poster: Option<string>,
    banner: Option<string>,
    otherKeys: bool)

  /** The hash is empty, which `params.require(:movie)` treats as missing. */
  predicate EmptyHash(p: MovieParams) {
    && p.title.None? && p.genre.None? && p.releaseYear.None? && p.rating.None? && p.director.None?
    && p.duration.None? && p.description.None? && p.premium.None? && p.poster.None? && p.banner.None?
    && !p.otherKeys
  }

  /** `params.require(:movie)` passes: the key is there and its hash is not
      empty. */
  predicate Required(params: Option<MovieParams>) {
    params.Some? && !EmptyHash(params.value)
  }

  /** `Movie.new` with no attributes: column defaults (premium false). */
  const NewMovie: Movie := Movie("", "", Absent, Absent, "", Absent, "", Some(false), None, None)

  /** An attribute after assignment: the given value when the key was
      sent, the stored one otherwise. */
  predicate Takes<T(==)>(given: Option<T>, before: T, after: T) {
    && (given.Some? ==> after == given.value)
    && (given.None? ==> after == before)
  }

  /** Assigning the sent attributes and attaching the uploaded files;
      attributes not sent keep their value. */
  function Assign(m: Movie, p: MovieParams): (m': Movie)
    ensures Takes(p.title, m.title, m'.title)
    ensures Takes(p.genre, m.genre, m'.genre)
    ensures Takes(p.releaseYear, m.releaseYear, m'.releaseYear)
    ensures Takes(p.rating, m.rating, m'.rating)
    ensures Takes(p.director, m.director, m'.director)
    ensures Takes(p.duration, m.duration, m'.duration)
    ensures Takes(p.description, m.description, m'.description)
    ensures Takes(p.premium, m.premium, m'.premium)
    ensures p.poster.Some? ==> m'.poster == p.poster
    ensures p.poster.None? ==> m'.poster == m.poster
    ensures p.banner.Some? ==> m'.banner == p.banner
    ensures p.banner.None? ==> m'.banner == m.banner
  {
    Movie(
      p.title.GetOr(m.title),
      p.genre.GetOr(m.genre),
      p.releaseYear.GetOr(m.releaseYear),
      p.rating.GetOr(m.rating),
      p.director.GetOr(m.director),
      p.duration.GetOr(m.duration),
      p.description.GetOr(m.description),
      p.premium.GetOr(m.premium),
      if p.poster.Some? then p.poster else m.poster,
      if p.banner.Some? then p.banner else m.banner)
  }

  /** Assigning nothing changes nothing. */
  lemma AssignNothing(m: Movie)
    ensures Assign(m, MovieParams(None, None, None, None, None, None, None, None, None, None, false)) == m
  {
  }

  datatype Reply =
    | Halted(halt: Halt)           // a before-action rendered 401 / 403
    | BadRequest                   // `params.require(:movie)` found no movie parameters, or an empty hash
    | ServerError                  // update without a `movie` key fails inside attach_files; an
                                   // integer too wide for its column fails the save
    | MovieNotFound
    | Unprocessable(errors: Errors)
    | Shown(movie: Movie)
    | Created(id: nat, movie: Movie)
    | Updated(movie: Movie)
    | Destroyed

  function Status(r: Reply): nat {
    match r
    case Halted(h) => h.status
    case BadRequest => 400
    case ServerError => 500
    case MovieNotFound => 404
    case Unprocessable(_) => 422
    case Shown(_) => 200
    case Created(_, _) => 201
    case Updated(_) => 200
    case Destroyed => 204
  }

  const NotFoundMessage: string := "Movie not found"

  /** The response together with the catalogue afterwards and the push
      notification `after_create` sent, if any. */
  datatype Step = Step(reply: Reply, catalog: Catalog, notification: Option<Notification>)

  /** Everything the before-actions consult. */
  datatype Session = Session(header: Option<string>, decode: Decoder, denyList: JwtBlacklist.Table,
                             users: Users.UserTable)

  function Guard(s: Session): AuthResult {
    RequireSupervisor(s.header, s.decode, s.denyList, s.users)
  }

  /** `show`: no authentication. */
  function Show(catalog: Catalog, id: nat): (r: Reply)
    ensures id in catalog ==> r == Shown(catalog[id])
    ensures id !in catalog ==> r == MovieNotFound
  {
    if id in catalog then Shown(catalog[id]) else MovieNotFound
  }

  /** `create`: the new row gets the fresh id `id` from the database;
      the notification callback reads the users table in the order
      `userOrder` lists its ids; `currentYear` bounds `release_year`. A
      valid movie whose integer does not fit its column raises on save
      (500), and nothing is stored or sent. */
  function Create(s: Session, catalog: Catalog, params: Option<MovieParams>, id: nat, currentYear: int,
                  userOrder: seq<nat>): (st: Step)
    requires id !in catalog
    requires Seqs.ListsKeys(userOrder, s.users)
    ensures Guard(s).Refused? ==> st == Step(Halted(Guard(s).halt), catalog, None)
    ensures Guard(s).Authenticated? && !Required(params) ==> st == Step(BadRequest, catalog, None)
    ensures st.reply.Created? <==>
      && Guard(s).Authenticated? && Required(params)
      && Valid(Assign(NewMovie, params.value), currentYear) && FitsColumns(Assign(NewMovie, params.value))
    ensures st.reply.Created? ==>
      && st.reply == Created(id, Assign(NewMovie, params.value))
      && st.catalog == catalog[id := st.reply.movie]
      && st.notification == NewMovieNotification(id, st.reply.movie, Seqs.Rows(s.users, userOrder))
    ensures !st.reply.Created? ==> st.catalog == catalog && st.notification.None?
    ensures st.reply.Unprocessable? ==>
      Required(params) && st.reply.errors == Validate(Assign(NewMovie, params.value), currentYear)
    ensures Guard(s).Authenticated? && Required(params) && !Valid(Assign(NewMovie, params.value), currentYear) ==>
      st == Step(Unprocessable(Validate(Assign(NewMovie, params.value), currentYear)), catalog, None)
    ensures Guard(s).Authenticated? && Required(params) && Valid(Assign(NewMovie, params.value), currentYear) &&
            !FitsColumns(Assign(NewMovie, params.value)) ==>
      st == Step(ServerError, catalog, None)
  {
    var auth := Guard(s);
    if auth.Refused? then Step(Halted(auth.halt), catalog, None)
    else if !Required(params) then Step(BadRequest, catalog, None)
    else
      var movie := Assign(NewMovie, params.value);
      var errors := Validate(movie, currentYear);
      if errors != {} then Step(Unprocessable(errors), catalog, None)
      else if !FitsColumns(movie) then Step(ServerError, catalog, None)
      else Step(Created(id, movie), catalog[id := movie], NewMovieNotification(id, movie, Seqs.Rows(s.users, userOrder)))
  }

  /** `update`: `attach_files` indexes the `movie` parameter before
      `movie_params` requires it, so a missing key fails there (500) while
      an empty hash reaches `require` (400); a valid result whose integer
      does not fit its column raises on save (500). */
  function Update(s: Session, catalog: Catalog, id: nat, params: Option<MovieParams>, currentYear: int): (st: Step)
    ensures Guard(s).Refused? ==> st.reply == Halted(Guard(s).halt)
    ensures Guard(s).Authenticated? && id !in catalog ==> st.reply == MovieNotFound
    ensures Guard(s).Authenticated? && id in catalog && params.None? ==> st.reply == ServerError
    ensures Guard(s).Authenticated? && id in catalog && params.Some? && EmptyHash(params.value) ==>
      st.reply == BadRequest
    ensures st.reply.Updated? <==>
      && Guard(s).Authenticated? && id in catalog && Required(params)
      && Valid(Assign(catalog[id], params.value), currentYear) && FitsColumns(Assign(catalog[id], params.value))
    ensures st.reply.Updated? ==>
      st.reply.movie == Assign(catalog[id], params.value) && st.catalog == catalog[id := st.reply.movie]
    ensures Guard(s).Authenticated? && id in catalog && Required(params) &&
            !Valid(Assign(catalog[id], params.value), currentYear) ==>
      st == Step(Unprocessable(Validate(Assign(catalog[id], params.value), currentYear)), catalog, None)
    ensures Guard(s).Authenticated? && id in catalog && Required(params) &&
            Valid(Assign(catalog[id], params.value), currentYear) && !FitsColumns(Assign(catalog[id], params.value)) ==>
      st == Step(ServerError, catalog, None)
    ensures !st.reply.Updated? ==> st.catalog == catalog
    ensures st.notification.None?
  {
    var auth := Guard(s);
    if auth.Refused? then Step(Halted(auth.halt), catalog, None)
    else if id !in catalog then Step(MovieNotFound, catalog, None)
    else if params.None? then Step(ServerError, catalog, None)
    else if EmptyHash(params.value) then Step(BadRequest, catalog, None)
    else
      var movie := Assign(catalog[id], params.value);
      var errors := Validate(movie, currentYear);
      if errors != {} then Step(Unprocessable(errors), catalog, None)
      else if !FitsColumns(movie) then Step(ServerError, catalog, None)
      else Step(Updated(movie), catalog[id := movie], None)
  }

  /** `destroy` */
  function Destroy(s: Session, catalog: Catalog, id: nat): (st: Step)
    ensures Guard(s).Refused? ==> st.reply == Halted(Guard(s).halt)
    ensures st.reply == Destroyed <==> Guard(s).Authenticated? && id in catalog
    ensures Guard(s).Authenticated? && id !in catalog ==> st.reply == MovieNotFound
    ensures st.reply == Destroyed ==> st.catalog.Keys == catalog.Keys - {id}
    ensures forall k :: k in st.catalog ==> k in catalog && st.catalog[k] == catalog[k]
    ensures st.reply != Destroyed ==> st.catalog == catalog
    ensures st.notification.None?
  {
    var auth := Guard(s);
    if auth.Refused? then Step(Halted(auth.halt), catalog, None)
    else if id in catalog then Step(Destroyed, catalog - {id}, None)
    else Step(MovieNotFound, catalog, None)
  }

  /** A created movie is then shown under its new id, and every other id
      shows what it showed before, whether or not the creation succeeded. */
  lemma CreateThenShow(s: Session, catalog: Catalog, params: Option<MovieParams>, id: nat, currentYear: int,
                       userOrder: seq<nat>, other: nat)
    requires id !in catalog
    requires Seqs.ListsKeys(userOrder, s.users)
    ensures var st := Create(s, catalog, params, id, currentYear, userOrder);
      && (st.reply.Created? ==> Show(st.catalog, id) == Shown(st.reply.movie))
      && (other != id ==> Show(st.catalog, other) == Show(catalog, other))
  {
  }

  /** An updated movie is then shown with its new attributes. */
  lemma UpdateThenShow(s: Session, catalog: Catalog, id: nat, params: Option<MovieParams>, currentYear: int)
    ensures var st := Update(s, catalog, id, params, currentYear);
      st.reply.Updated? ==> Show(st.catalog, id) == Shown(st.reply.movie)
  {
  }

  /** A destroyed movie is then not found, and every other id shows what it
      showed before, whether or not the destroy succeeded. */
  lemma DestroyThenShow(s: Session, catalog: Catalog, id: nat, other: nat)
    ensures Destroy(s, catalog, id).reply == Destroyed ==> Show(Destroy(s, catalog, id).catalog, id) == MovieNotFound
    ensures other != id ==> Show(Destroy(s, catalog, id).catalog, other) == Show(catalog, other)
  {
  }

  /** A signed-in user without the supervisor role is refused with 403 by
      create, update and destroy alike, and the catalogue is untouched. */
  lemma NonSupervisorForbidden(s: Session, catalog: Catalog, id: nat, params: Option<MovieParams>,
                               newId: nat, currentYear: int, userOrder: seq<nat>)
    requires newId !in catalog
    requires Seqs.ListsKeys(userOrder, s.users)
    requires Authenticate(s.header, s.decode, s.denyList, s.users).Authenticated?
    requires Authenticate(s.header, s.decode, s.denyList, s.users).user.role == Users.RegularUser
    ensures var c := Create(s, catalog, params, newId, currentYear, userOrder);
      Status(c.reply) == 403 && c.catalog == catalog
    ensures var u := Update(s, catalog, id, params, currentYear);
      Status(u.reply) == 403 && u.catalog == catalog
    ensures var d := Destroy(s, catalog, id);
      Status(d.reply) == 403 && d.catalog == catalog
  {
  }

  // ---------------------------------------------------------------------
  // can_access_movie? (movies_controller.rb:129-145)
  // ---------------------------------------------------------------------

  /** The current user's subscription may be missing; `active?` and `free?`
      are not defined by the model, so they are inputs. */
  function CanAccessMovie(subscription: Option<Subscriptions.Subscription>, movie: Movie,
                          isActive: Subscriptions.Subscription -> bool,
                          isFree: Subscriptions.Subscription -> bool): (allowed: bool)
    ensures allowed <==>
      && subscription.Some?
      && isActive(subscription.value)
      && !isFree(subscription.value)
      && !(Subscriptions.IsBasic(subscription.value) && IsPremium(movie))
  {
    if subscription.None? || !isActive(subscription.value) then false
    else if isFree(subscription.value) then false
    else if Subscriptions.IsBasic(subscription.value) && IsPremium(movie) then false
    else true
  }

  /** For an active, non-free, valid subscription: free movies are always
      open, and premium movies exactly to premium plans. */
  lemma AccessMatrix(sub: Subscriptions.Subscription, userIds: set<nat>, movie: Movie,
                     isActive: Subscriptions.Subscription -> bool,
                     isFree: Subscriptions.Subscription -> bool)
    requires Subscriptions.Valid(sub, userIds) && isActive(sub) && !isFree(sub)
    ensures CanAccessMovie(Some(sub), movie, isActive, isFree) <==> !IsPremium(movie) || Subscriptions.IsPremium(sub)
  {
    Subscriptions.BasicXorPremium(sub, userIds);
  }
}
