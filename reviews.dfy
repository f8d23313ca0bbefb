/**
 * The decision logic of app/api/reviews/route.ts over an in-memory review
 * table: the request schema, the ordered answers of `POST`, the pagination
 * of `GET` and the recomputation of a movie's statistics.
 *
 * The table is a sequence of reviews, newest first (the order `GET` lists
 * them in); the statistics are a map from movie id to its row. The session,
 * the request body and the clock are parameters; the rate limiter is the
 * `RateLimit` model.
 */
module Reviews {
  import opened Options
  import opened Json
  import RateLimit
  import Sanitize

  // ---------------------------------------------------------------------
  // The request schema

  const MaxTitleLength := 200
  const MinBodyLength := 10
  const MaxBodyLength := 5000

  /** A request that passed `createReviewSchema`. */
  datatype CreateReview = CreateReview(tmdbId: int, rating: int, title: Option<string>, body: string, spoiler: bool)

  /** What the schema guarantees of the request it hands on. */
  predicate WellFormed(req: CreateReview) {
    && req.tmdbId >= 1
    && 1 <= req.rating <= 10
    && (req.title.Some? ==> |req.title.value| <= MaxTitleLength)
    && MinBodyLength <= |req.body| <= MaxBodyLength
  }

  /** `z.number().int().positive()` */
  predicate PositiveInteger(v: Value) { v.Num? && IsInteger(v.n) && v.n > 0.0 }

  /** `z.number().int().min(1).max(10)` */
  predicate RatingNumber(v: Value) { v.Num? && IsInteger(v.n) && 1.0 <= v.n <= 10.0 }

  /** `z.string().max(200)`; an absent title is accepted by `.optional()`, `null` is not. */
  predicate TitleString(v: Value) { v.Str? && |v.s| <= MaxTitleLength }

  /** `z.string().min(10).max(5000)` */
  predicate BodyString(v: Value) { v.Str? && MinBodyLength <= |v.s| <= MaxBodyLength }

  /** The body is an object whose fields pass the schema; other fields are ignored. */
  predicate Conforms(v: Value) {
    && v.Obj?
    && "tmdbId" in v.fields && PositiveInteger(v.fields["tmdbId"])
    && "rating" in v.fields && RatingNumber(v.fields["rating"])
    && ("title" in v.fields ==> TitleString(v.fields["title"]))
    && "body" in v.fields && BodyString(v.fields["body"])
    && ("spoiler" in v.fields ==> v.fields["spoiler"].Bool?)
  }

  /** `createReviewSchema.safeParse(body)`: the request exactly when the body
      conforms, with `spoiler` defaulting to false. */
  function ParseCreateReview(v: Value): (r: Option<CreateReview>)
    ensures r.Some? <==> Conforms(v)
    ensures r.Some? ==> WellFormed(r.value)
    ensures r.Some? ==>
      && r.value.tmdbId as real == v.fields["tmdbId"].n
      && r.value.rating as real == v.fields["rating"].n
      && r.value.body == v.fields["body"].s
      && (r.value.title.Some? <==> "title" in v.fields)
      && (r.value.title.Some? ==> r.value.title.value == v.fields["title"].s)
      && (r.value.spoiler <==> "spoiler" in v.fields && v.fields["spoiler"].b)
  {
    if !Conforms(v) then None
    else
      var f := v.fields;
      Some(CreateReview(
        f["tmdbId"].n.Floor,
        f["rating"].n.Floor,
        if "title" in f then Some(f["title"].s) else None,
        f["body"].s,
        "spoiler" in f && f["spoiler"].b))
  }

  /** The JSON body a client sends for a request. */
  function Encode(req: CreateReview): Value {
    var required := map["tmdbId" := Num(req.tmdbId as real), "rating" := Num(req.rating as real),
                        "body" := Str(req.body), "spoiler" := Bool(req.spoiler)];
    Obj(if req.title.Some? then required["title" := Str(req.title.value)] else required)
  }

  /** Every request the schema can hand on is read back from its own JSON. */
  lemma ParseEncode(req: CreateReview)
    requires WellFormed(req)
    ensures ParseCreateReview(Encode(req)) == Some(req)
  {
    var f := Encode(req).fields;
    assert f["tmdbId"].n.Floor == req.tmdbId && f["rating"].n.Floor == req.rating;
    assert Conforms(Encode(req));
  }

  // ---------------------------------------------------------------------
  // The table and the statistics

  datatype SessionUser = SessionUser(id: string, isBanned: bool)

  /** A stored review; a new one is not hidden. */
  datatype Review = Review(tmdbId: int, userId: string, rating: int, title: Option<string>,
                           body: string, spoiler: bool, isHidden: bool)

  datatype MovieStats = MovieStats(avgRating: real, ratingCount: nat, reviewCount: nat)

  /** The table holds at most one review per movie and user (the unique
      `tmdbId_userId` index). */
  predicate Unique(reviews: seq<Review>) {
    forall i, j :: 0 <= i < j < |reviews| ==>
      !(reviews[i].tmdbId == reviews[j].tmdbId && reviews[i].userId == reviews[j].userId)
  }

  /** Every stored rating passed the schema. */
  predicate RatingsInRange(reviews: seq<Review>) {
    forall i :: 0 <= i < |reviews| ==> 1 <= reviews[i].rating <= 10
  }

  /** Every statistics row describes at least one review, with a mean rating in 1..10. */
  predicate StatsInRange(stats: map<int, MovieStats>) {
    forall t :: t in stats ==> stats[t].ratingCount >= 1 && 1.0 <= stats[t].avgRating <= 10.0
  }

  /** `findUnique({tmdbId_userId})` finds a review, hidden or not. */
  predicate HasReview(reviews: seq<Review>, tmdbId: int, userId: string) {
    exists i :: 0 <= i < |reviews| && reviews[i].tmdbId == tmdbId && reviews[i].userId == userId
  }

  /** The movie's reviews that are not hidden, in table order. */
  function Visible(reviews: seq<Review>, tmdbId: int): (v: seq<Review>)
    ensures |v| <= |reviews|
    ensures forall r :: r in v <==> r in reviews && r.tmdbId == tmdbId && !r.isHidden
  {
    if reviews == [] then []
    else
      var rest := Visible(reviews[1..], tmdbId);
      assert forall r :: r in reviews <==> r == reviews[0] || r in reviews[1..];
      if reviews[0].tmdbId == tmdbId && !reviews[0].isHidden then [reviews[0]] + rest else rest
  }

  /** `Visible` keeps the table's order: the visible reviews of two tables
      one after the other are those of the first followed by those of the
      second. */
  lemma {:induction false} VisibleAppend(a: seq<Review>, b: seq<Review>, tmdbId: int)
    ensures Visible(a + b, tmdbId) == Visible(a, tmdbId) + Visible(b, tmdbId)
    decreases |a|
  {
    if a == [] {
      assert a + b == b;
    } else {
      assert (a + b)[0] == a[0] && (a + b)[1..] == a[1..] + b;
      VisibleAppend(a[1..], b, tmdbId);
    }
  }

  /** A single review is listed for a movie exactly when it is that movie's
      and not hidden. */
  lemma VisibleOne(r: Review, tmdbId: int)
    ensures Visible([r], tmdbId) == if r.tmdbId == tmdbId && !r.isHidden then [r] else []
  {
    assert [r][1..] == [];
  }

  function Sum(reviews: seq<Review>): int {
    if reviews == [] then 0 else reviews[0].rating + Sum(reviews[1..])
  }

  /** Ratings in 1..10 add up to between one and ten times their number. */
  lemma {:induction false} SumBounds(reviews: seq<Review>)
    requires RatingsInRange(reviews)
    ensures |reviews| <= Sum(reviews) <= 10 * |reviews|
  {
    if reviews != [] {
      SumBounds(reviews[1..]);
    }
  }

  /** The row `updateMovieStats` writes for a movie's visible reviews. */
  function StatsRow(visible: seq<Review>): MovieStats
    requires visible != []
  {
    MovieStats(Sum(visible) as real / |visible| as real, |visible|, |visible|)
  }

  /** `updateMovieStats(tmdbId)`. */
  function UpdateStats(reviews: seq<Review>, stats: map<int, MovieStats>, tmdbId: int): (s: map<int, MovieStats>)
    ensures s.Keys == if Visible(reviews, tmdbId) == [] then stats.Keys else stats.Keys + {tmdbId}
  {
    var visible := Visible(reviews, tmdbId);
    if visible == [] then stats else stats[tmdbId := StatsRow(visible)]
  }

  /** `updateMovieStats` touches no other movie's row. */
  lemma UpdateStatsOthers(reviews: seq<Review>, stats: map<int, MovieStats>, tmdbId: int, t: int)
    requires t != tmdbId
    ensures var s := UpdateStats(reviews, stats, tmdbId);
      (t in s <==> t in stats) && (t in stats ==> s[t] == stats[t])
  {
  }

  /** With at least one visible review the movie's row is written with both
      counts equal to their number and their mean rating; with none nothing is
      written, and an existing row is kept as it was. */
  lemma UpdateStatsRow(reviews: seq<Review>, stats: map<int, MovieStats>, tmdbId: int)
    ensures Visible(reviews, tmdbId) == [] ==> UpdateStats(reviews, stats, tmdbId) == stats
    ensures var visible := Visible(reviews, tmdbId);
      var s := UpdateStats(reviews, stats, tmdbId);
      visible != [] ==>
        && tmdbId in s && s[tmdbId].ratingCount == |visible| && s[tmdbId].reviewCount == |visible|
        && s[tmdbId].avgRating == Sum(visible) as real / |visible| as real
  {
  }

  /** Recomputing a movie's row a second time, with no review added in
      between, leaves the statistics as the first recomputation left them. */
  lemma UpdateStatsIdempotent(reviews: seq<Review>, stats: map<int, MovieStats>, tmdbId: int)
    ensures UpdateStats(reviews, UpdateStats(reviews, stats, tmdbId), tmdbId) == UpdateStats(reviews, stats, tmdbId)
  {
  }

  lemma MeanTimesCount(sum: int, n: int)
    requires n >= 1
    ensures (sum as real / n as real) * n as real == sum as real
  {
  }

  /** A sum between `n` and `10 * n` has a mean in 1..10. */
  lemma MeanBounds(sum: int, n: int)
    requires n >= 1 && n <= sum <= 10 * n
    ensures 1.0 <= sum as real / n as real <= 10.0
  {
    MeanTimesCount(sum, n);
  }

  /** The reviews of a table whose ratings are in range have a mean in 1..10. */
  lemma StatsStayInRange(reviews: seq<Review>, stats: map<int, MovieStats>, tmdbId: int)
    requires RatingsInRange(reviews) && StatsInRange(stats)
    ensures StatsInRange(UpdateStats(reviews, stats, tmdbId))
  {
    var visible := Visible(reviews, tmdbId);
    if visible != [] {
      forall i | 0 <= i < |visible| ensures 1 <= visible[i].rating <= 10 {
        assert visible[i] in reviews;
      }
      SumBounds(visible);
      MeanBounds(Sum(visible), |visible|);
      assert StatsRow(visible).avgRating == Sum(visible) as real / |visible| as real;
    }
  }

  /** Ratings 8, 6 and 10 give the row 8.0 / 3 / 3. */
  lemma ThreeRatingsExample(stats: map<int, MovieStats>)
    ensures var table := [Review(550, "a", 8, None, "", false, false),
                          Review(550, "b", 6, None, "", false, false),
                          Review(550, "c", 10, None, "", false, false),
                          Review(550, "d", 1, None, "", false, true)];
      UpdateStats(table, stats, 550)[550] == MovieStats(8.0, 3, 3)
  {
    var table := [Review(550, "a", 8, None, "", false, false),
                  Review(550, "b", 6, None, "", false, false),
                  Review(550, "c", 10, None, "", false, false),
                  Review(550, "d", 1, None, "", false, true)];
    assert Visible(table[3..], 550) == [];
    assert Visible(table[2..], 550) == table[2..3];
    assert Visible(table[1..], 550) == table[1..3];
    assert Visible(table, 550) == table[..3];
    assert table[..3][1..] == table[1..3] && table[1..3][1..] == table[2..3];
    assert Sum(table[2..3]) == 10;
    assert Sum(table[1..3]) == 16;
    assert Sum(table[..3]) == 24;
  }

  // ---------------------------------------------------------------------
  // POST

  /** The answers of `POST`, each with its HTTP status code. */
  datatype PostResponse =
    | Unauthorized                    // 401
    | Banned                          // 403
    | RateLimited(retryAfter: int)    // 429, with `Retry-After`
    | Failed                          // 500
    | InvalidBody                     // 400
    | AlreadyReviewed                 // 409
    | Created(review: Review)         // 201

  /** The answer together with the limiter table, review table and statistics it leaves. */
  datatype PostOutcome = PostOutcome(response: PostResponse, limits: map<string, RateLimit.Entry>,
                                     reviews: seq<Review>, stats: map<int, MovieStats>)

  /** `Math.ceil(x / d)` for a positive `d`. */
  function CeilDiv(x: int, d: int): (q: int)
    requires d > 0
    ensures (q - 1) * d < x <= q * d
  {
    var m := (-x) % d;
    assert -x == d * ((-x) / d) + m;
    -((-x) / d)
  }

  /** The seconds to wait before the limiter's window ends. */
  function RetryAfter(resetAt: int, now: int): (seconds: int)
    ensures (seconds - 1) * 1000 < resetAt - now <= seconds * 1000
  {
    CeilDiv(resetAt - now, 1000)
  }

  /** The review `POST` creates: the title only when one was given and is not
      empty, sanitised; the body sanitised. */
  function NewReview(req: CreateReview, userId: string): (r: Review)
    ensures r.tmdbId == req.tmdbId && r.userId == userId && r.rating == req.rating
    ensures r.spoiler == req.spoiler && !r.isHidden
    ensures Sanitize.NoTag(r.body) && |r.body| <= |req.body|
    ensures r.title.Some? <==> req.title.Some? && req.title.value != []
    ensures r.title.Some? ==> Sanitize.NoTag(r.title.value) && |r.title.value| <= |req.title.value|
  {
    Review(req.tmdbId, userId, req.rating,
           if req.title.None? || req.title.value == [] then None else Some(Sanitize.SanitizeInput(req.title.value)),
           Sanitize.SanitizeInput(req.body), req.spoiler, false)
  }

  /** The limiter's verdict for a session user at time `now`. */
  function Consult(limits: map<string, RateLimit.Entry>, windowMs: int, maxRequests: int, user: SessionUser, now: int): RateLimit.CheckOutcome {
    RateLimit.CheckLimits(limits, windowMs, maxRequests, user.id, now)
  }

  /** Where `POST` goes once the limiter has answered: an answer that writes
      nothing, or the request to create. */
  datatype Decision = Answer(response: PostResponse) | Create(req: CreateReview)

  /** The checks after the limiter, in the handler's order: the limiter's
      verdict, a body that is JSON, the schema, an earlier review. */
  function Guard(verdict: RateLimit.CheckResult, body: Option<Value>, reviews: seq<Review>, userId: string, now: int): (d: Decision)
    ensures d.Answer? ==> d.response.RateLimited? || d.response.Failed? || d.response.InvalidBody? || d.response.AlreadyReviewed?
    ensures d.Answer? && d.response.RateLimited? <==> !verdict.allowed
    ensures d.Answer? && d.response.Failed? <==> verdict.allowed && body.None?
    ensures d.Answer? && d.response.InvalidBody? <==> verdict.allowed && body.Some? && !Conforms(body.value)
    ensures d.Answer? && d.response.AlreadyReviewed? <==>
      verdict.allowed && body.Some? && Conforms(body.value) && HasReview(reviews, ParseCreateReview(body.value).value.tmdbId, userId)
    ensures d.Create? ==> body.Some? && ParseCreateReview(body.value) == Some(d.req) && !HasReview(reviews, d.req.tmdbId, userId)
  {
    if !verdict.allowed then Answer(RateLimited(RetryAfter(verdict.resetAt, now)))
    else if body.None? then Answer(Failed)
    else
      var req := ParseCreateReview(body.value);
      if req.None? then Answer(InvalidBody)
      else if HasReview(reviews, req.value.tmdbId, userId) then Answer(AlreadyReviewed)
      else Create(req.value)
  }

  /** `POST` for the signed-in user `session` (or none) and the request body
      `body` (`None` when it is not JSON). A user is refused before the limiter
      is consulted; the limiter is consulted before the body is read; only a
      created review changes the tables. */
  function PostReview(limits: map<string, RateLimit.Entry>, windowMs: int, maxRequests: int,
                      session: Option<SessionUser>, body: Option<Value>,
                      reviews: seq<Review>, stats: map<int, MovieStats>, now: int): (o: PostOutcome)
    ensures o.response.Unauthorized? <==> session.None?
    ensures o.response.Banned? <==> session.Some? && session.value.isBanned
    ensures o.response.Unauthorized? || o.response.Banned? ==> o.limits == limits
    ensures !o.response.Created? ==> o.reviews == reviews && o.stats == stats
    ensures o.response.Created? ==>
      && session.Some? && o.response.review.userId == session.value.id
      && !HasReview(reviews, o.response.review.tmdbId, session.value.id)
      && o.response.review.tmdbId >= 1 && 1 <= o.response.review.rating <= 10
      && o.reviews == [o.response.review] + reviews
      && o.stats == UpdateStats(o.reviews, stats, o.response.review.tmdbId)
  {
    if session.None? then PostOutcome(Unauthorized, limits, reviews, stats)
    else if session.value.isBanned then PostOutcome(Banned, limits, reviews, stats)
    else
      var user := session.value;
      var c := Consult(limits, windowMs, maxRequests, user, now);
      match Guard(c.result, body, reviews, user.id, now)
      case Answer(response) => PostOutcome(response, c.limits, reviews, stats)
      case Create(req) =>
        var review := NewReview(req, user.id);
        var table := [review] + reviews;
        PostOutcome(Created(review), c.limits, table, UpdateStats(table, stats, review.tmdbId))
  }

  /** Every request that gets past the ban check uses up a limiter slot, even
      when it is then answered 400, 409 or 500. */
  lemma SlotConsumed(limits: map<string, RateLimit.Entry>, windowMs: int, maxRequests: int,
                     user: SessionUser, body: Option<Value>, reviews: seq<Review>, stats: map<int, MovieStats>, now: int)
    requires !user.isBanned
    ensures var o := PostReview(limits, windowMs, maxRequests, Some(user), body, reviews, stats, now);
      var c := Consult(limits, windowMs, maxRequests, user, now);
      && o.limits == c.limits
      && (o.response.RateLimited? <==> !c.result.allowed)
      && (o.response.InvalidBody? || o.response.AlreadyReviewed? || o.response.Failed? || o.response.Created? <==> c.result.allowed)
  {
    var c := Consult(limits, windowMs, maxRequests, user, now);
    var d := Guard(c.result, body, reviews, user.id, now);
    var o := PostReview(limits, windowMs, maxRequests, Some(user), body, reviews, stats, now);
    if d.Answer? {
      assert o == PostOutcome(d.response, c.limits, reviews, stats);
    } else {
      assert o.response.Created? && o.limits == c.limits;
    }
  }

  /** The `retryAfter` of a refusal is the number of whole seconds, rounded up,
      until the window ends; it is never negative. */
  lemma RetryAfterCoversWindow(limits: map<string, RateLimit.Entry>, windowMs: int, maxRequests: int,
                               user: SessionUser, body: Option<Value>, reviews: seq<Review>, stats: map<int, MovieStats>, now: int)
    ensures var o := PostReview(limits, windowMs, maxRequests, Some(user), body, reviews, stats, now);
      o.response.RateLimited? ==>
        var wait := limits[user.id].resetAt - now;
        && 0 <= o.response.retryAfter
        && (o.response.retryAfter - 1) * 1000 < wait <= o.response.retryAfter * 1000
  {
    var c := Consult(limits, windowMs, maxRequests, user, now);
    if !user.isBanned && !c.result.allowed {
      assert !RateLimit.OpensWindow(limits, user.id, now);
    }
  }

  /** A body is answered 400 exactly when it is JSON that does not conform to
      the schema, for a user the limiter admits. */
  lemma InvalidBodyExactly(limits: map<string, RateLimit.Entry>, windowMs: int, maxRequests: int,
                           user: SessionUser, body: Value, reviews: seq<Review>, stats: map<int, MovieStats>, now: int)
    ensures PostReview(limits, windowMs, maxRequests, Some(user), Some(body), reviews, stats, now).response.InvalidBody?
      <==> !user.isBanned && Consult(limits, windowMs, maxRequests, user, now).result.allowed && !Conforms(body)
  {
  }

  /** A user who already reviewed the movie, hidden or not, gets no second review. */
  lemma NoSecondReview(limits: map<string, RateLimit.Entry>, windowMs: int, maxRequests: int,
                       user: SessionUser, req: CreateReview, reviews: seq<Review>, stats: map<int, MovieStats>, now: int)
    requires WellFormed(req) && HasReview(reviews, req.tmdbId, user.id)
    ensures var o := PostReview(limits, windowMs, maxRequests, Some(user), Some(Encode(req)), reviews, stats, now);
      !o.response.Created? && (!user.isBanned && Consult(limits, windowMs, maxRequests, user, now).result.allowed ==> o.response.AlreadyReviewed?)
  {
    ParseEncode(req);
  }

  /** A well-formed request from an admitted user without a review of the
      movie is created: sanitised title (none when absent or empty) and body,
      not hidden, and the movie's statistics recomputed over the new table. */
  lemma CreatesReview(limits: map<string, RateLimit.Entry>, windowMs: int, maxRequests: int,
                      user: SessionUser, req: CreateReview, reviews: seq<Review>, stats: map<int, MovieStats>, now: int)
    requires WellFormed(req) && !user.isBanned && !HasReview(reviews, req.tmdbId, user.id)
    requires Consult(limits, windowMs, maxRequests, user, now).result.allowed
    ensures var o := PostReview(limits, windowMs, maxRequests, Some(user), Some(Encode(req)), reviews, stats, now);
      && o.response.Created?
      && var r := o.response.review;
      && r.tmdbId == req.tmdbId && r.rating == req.rating && r.spoiler == req.spoiler && !r.isHidden
      && r.body == Sanitize.SanitizeInput(req.body) && Sanitize.NoTag(r.body)
      && (r.title.None? <==> req.title.None? || req.title.value == [])
      && (r.title.Some? ==> r.title.value == Sanitize.SanitizeInput(req.title.value) && Sanitize.NoTag(r.title.value))
      && o.stats == UpdateStats(o.reviews, stats, req.tmdbId)
  {
    ParseEncode(req);
  }

  /** The table is kept newest first (`create` prepends, `GET` orders by
      `createdAt` descending): after `POST` creates a review, the movie's
      visible list is that review followed by the earlier ones, so it is the
      first review on page 1, and the total grows by one. */
  lemma CreatedListedFirst(limits: map<string, RateLimit.Entry>, windowMs: int, maxRequests: int,
                           session: Option<SessionUser>, body: Option<Value>,
                           reviews: seq<Review>, stats: map<int, MovieStats>, now: int, limitParam: int)
    requires limitParam >= 1
    ensures var o := PostReview(limits, windowMs, maxRequests, session, body, reviews, stats, now);
      o.response.Created? ==>
        var t := o.response.review.tmdbId;
        var r := ListReviews(o.reviews, t, 1, limitParam);
        && Visible(o.reviews, t) == [o.response.review] + Visible(reviews, t)
        && r.Listing? && r.items != [] && r.items[0] == o.response.review
        && r.total == |Visible(reviews, t)| + 1
  {
    var o := PostReview(limits, windowMs, maxRequests, session, body, reviews, stats, now);
    if o.response.Created? {
      var review := o.response.review;
      var t := review.tmdbId;
      assert !review.isHidden by {
        var c := Consult(limits, windowMs, maxRequests, session.value, now);
        var d := Guard(c.result, body, reviews, session.value.id, now);
        assert d.Create? && review == NewReview(d.req, session.value.id);
      }
      VisibleAppend([review], reviews, t);
      VisibleOne(review, t);
      PageContents(o.reviews, t, 1, limitParam, 0);
    }
  }

  /** `POST` keeps a table unique, its ratings in range and its statistics in range. */
  lemma PostKeepsTablesValid(limits: map<string, RateLimit.Entry>, windowMs: int, maxRequests: int,
                             session: Option<SessionUser>, body: Option<Value>,
                             reviews: seq<Review>, stats: map<int, MovieStats>, now: int)
    requires Unique(reviews) && RatingsInRange(reviews) && StatsInRange(stats)
    ensures var o := PostReview(limits, windowMs, maxRequests, session, body, reviews, stats, now);
      Unique(o.reviews) && RatingsInRange(o.reviews) && StatsInRange(o.stats)
  {
    var o := PostReview(limits, windowMs, maxRequests, session, body, reviews, stats, now);
    if o.response.Created? {
      var r := o.response.review;
      PrependKeepsTable(r, reviews);
      StatsStayInRange(o.reviews, stats, r.tmdbId);
    }
  }

  /** A review with a rating in range, for a movie and user without a review,
      added to a valid table leaves it valid. */
  lemma PrependKeepsTable(r: Review, reviews: seq<Review>)
    requires Unique(reviews) && RatingsInRange(reviews)
    requires !HasReview(reviews, r.tmdbId, r.userId) && 1 <= r.rating <= 10
    ensures Unique([r] + reviews) && RatingsInRange([r] + reviews)
  {
    var t := [r] + reviews;
    forall i, j | 0 <= i < j < |t|
      ensures !(t[i].tmdbId == t[j].tmdbId && t[i].userId == t[j].userId)
    {
      if i == 0 {
        assert t[j] == reviews[j - 1];
      } else {
        assert t[i] == reviews[i - 1] && t[j] == reviews[j - 1];
      }
    }
    forall i | 0 <= i < |t| ensures 1 <= t[i].rating <= 10 {
      if i > 0 { assert t[i] == reviews[i - 1]; }
    }
  }

  // ---------------------------------------------------------------------
  // GET

  const MaxPageSize := 50

  /** The answers of `GET`. */
  datatype ListResponse =
    | MissingTmdbId
    | ListFailed
    | Listing(items: seq<Review>, page: int, limit: int, total: nat, totalPages: int)

  function Min(a: int, b: int): int { if a <= b then a else b }

  /** `GET ?tmdbId&page&limit` with the parameters already read as integers
      (`tmdbId` 0 when missing): the visible reviews of the movie, newest
      first, from offset `(page - 1) * limit` and at most `limit` of them,
      with the limit capped at 50. A negative offset is refused by the
      database, which the handler answers with 500. */
  function ListReviews(reviews: seq<Review>, tmdbId: int, page: int, limitParam: int): (r: ListResponse)
    requires limitParam >= 1
    ensures r.MissingTmdbId? <==> tmdbId == 0
    ensures r.ListFailed? <==> tmdbId != 0 && page < 1
    ensures r.Listing? ==>
      && r.page == page && r.limit == Min(limitParam, MaxPageSize)
      && r.total == |Visible(reviews, tmdbId)|
      && (r.totalPages - 1) * r.limit < r.total <= r.totalPages * r.limit
  {
    var limit := Min(limitParam, MaxPageSize);
    if tmdbId == 0 then MissingTmdbId
    else
      var skip := (page - 1) * limit;
      if skip < 0 then ListFailed
      else
        var visible := Visible(reviews, tmdbId);
        var items := if skip >= |visible| then [] else visible[skip..Min(skip + limit, |visible|)];
        Listing(items, page, limit, |visible|, CeilDiv(|visible|, limit))
  }

  /** A page holds at most `limit` reviews, all visible reviews of the movie,
      and it is empty exactly when it lies past the last page. */
  lemma PageBounds(reviews: seq<Review>, tmdbId: int, page: int, limitParam: int)
    requires limitParam >= 1
    ensures var r := ListReviews(reviews, tmdbId, page, limitParam);
      r.Listing? ==>
        && 1 <= r.limit <= MaxPageSize && |r.items| <= r.limit
        && (forall x :: x in r.items ==> x.tmdbId == tmdbId && !x.isHidden && x in reviews)
        && (r.items != [] <==> page <= r.totalPages)
  {
    var r := ListReviews(reviews, tmdbId, page, limitParam);
    if r.Listing? {
      var visible := Visible(reviews, tmdbId);
      var limit := r.limit;
      var skip := (page - 1) * limit;
      assert r.items != [] <==> skip < |visible|;
      PastLastPage(page, limit, r.totalPages, |visible|);
    }
  }

  /** With `totalPages` the rounded-up quotient of `total` by `limit`, page
      `page` starts before the end exactly when it is not past the last page. */
  lemma PastLastPage(page: int, limit: int, totalPages: int, total: int)
    requires page >= 1 && limit >= 1
    requires (totalPages - 1) * limit < total <= totalPages * limit
    ensures (page - 1) * limit < total <==> page <= totalPages
  {
    if page <= totalPages {
      MulMonotone(page - 1, totalPages - 1, limit);
    } else {
      MulMonotone(totalPages, page - 1, limit);
    }
  }

  lemma MulMonotone(a: int, b: int, k: int)
    requires a <= b && k >= 0
    ensures a * k <= b * k
  {
    assert b * k - a * k == (b - a) * k;
  }

  /** Page `page` holds, at its position `j`, the visible review at position
      `(page - 1) * limit + j`, for every such position that exists. */
  lemma PageContents(reviews: seq<Review>, tmdbId: int, page: int, limitParam: int, j: int)
    requires limitParam >= 1 && tmdbId != 0 && page >= 1
    ensures var limit := Min(limitParam, MaxPageSize);
      var skip := (page - 1) * limit;
      var visible := Visible(reviews, tmdbId);
      var r := ListReviews(reviews, tmdbId, page, limitParam);
      r.Listing? && (0 <= j < limit && skip + j < |visible| ==> j < |r.items| && r.items[j] == visible[skip + j])
  {
    var limit := Min(limitParam, MaxPageSize);
    var skip := (page - 1) * limit;
    MulMonotone(0, page - 1, limit);
    PageSlice(reviews, tmdbId, page, limitParam, skip);
    if 0 <= j < limit && skip + j < |Visible(reviews, tmdbId)| {
      PageEntry(reviews, tmdbId, limitParam, page, j, skip + j);
    }
  }

  /** A listed page is the slice of the visible reviews from `skip` on. */
  lemma PageSlice(reviews: seq<Review>, tmdbId: int, page: int, limitParam: int, skip: int)
    requires limitParam >= 1 && tmdbId != 0 && skip == (page - 1) * Min(limitParam, MaxPageSize) && skip >= 0
    ensures var visible := Visible(reviews, tmdbId);
      var r := ListReviews(reviews, tmdbId, page, limitParam);
      r.Listing? && r.items == if skip >= |visible| then [] else visible[skip..Min(skip + Min(limitParam, MaxPageSize), |visible|)]
  {
  }

  /** Paging covers every visible review: the review at position `i` of the
      movie's visible list is at position `i % limit` of page `i / limit + 1`. */
  lemma PagesCoverVisible(reviews: seq<Review>, tmdbId: int, limitParam: int, i: int)
    requires limitParam >= 1 && tmdbId != 0
    requires 0 <= i < |Visible(reviews, tmdbId)|
    ensures var limit := Min(limitParam, MaxPageSize);
      var r := ListReviews(reviews, tmdbId, i / limit + 1, limitParam);
      r.Listing? && i % limit < |r.items| && r.items[i % limit] == Visible(reviews, tmdbId)[i]
  {
    var limit := Min(limitParam, MaxPageSize);
    PageOffset(i, limit);
    PageEntry(reviews, tmdbId, limitParam, i / limit + 1, i % limit, i);
  }

  /** Position `k` of page `p` holds the visible review at `(p - 1) * limit + k`. */
  lemma PageEntry(reviews: seq<Review>, tmdbId: int, limitParam: int, p: int, k: int, i: int)
    requires limitParam >= 1 && tmdbId != 0 && 0 <= i < |Visible(reviews, tmdbId)| && p >= 1
    requires 0 <= k < Min(limitParam, MaxPageSize) && (p - 1) * Min(limitParam, MaxPageSize) == i - k
    ensures var r := ListReviews(reviews, tmdbId, p, limitParam);
      r.Listing? && k < |r.items| && r.items[k] == Visible(reviews, tmdbId)[i]
  {
    var visible := Visible(reviews, tmdbId);
    var limit := Min(limitParam, MaxPageSize);
    var skip := i - k;
    MulMonotone(0, p - 1, limit);
    PageSlice(reviews, tmdbId, p, limitParam, skip);
    var items := visible[skip..Min(skip + limit, |visible|)];
    assert ListReviews(reviews, tmdbId, p, limitParam).items == items;
    assert k < |items| && items[k] == visible[i];
  }

  /** The page holding position `i` starts at the multiple of `limit` just below it. */
  lemma PageOffset(i: int, limit: int)
    requires 0 <= i && limit >= 1
    ensures ((i / limit + 1) - 1) * limit == i - i % limit && 0 <= i % limit < limit
  {
    assert (i / limit + 1) - 1 == i / limit;
  }

  // ---------------------------------------------------------------------
  // The store

  /** The review and statistics tables, changed in place by `POST`. */
  class ReviewStore {
    var reviews: seq<Review>
    var stats: map<int, MovieStats>

    ghost predicate Valid()
      reads this
    {
      Unique(reviews) && RatingsInRange(reviews) && StatsInRange(stats)
    }

    constructor ()
      ensures reviews == [] && stats == map[] && Valid()
    {
      reviews := [];
      stats := map[];
    }

    /** `POST /api/reviews`, consulting (and updating) `limiter`, which is
        `reviewRateLimiter`: five reviews an hour. */
    method Post(limiter: RateLimit.RateLimiter, session: Option<SessionUser>, body: Option<Value>, now: int)
      returns (response: PostResponse)
      requires Valid() && limiter.Valid()
      requires limiter.windowMs == RateLimit.ReviewLimits.windowMs && limiter.maxRequests == RateLimit.ReviewLimits.maxRequests
      modifies this, limiter
      ensures Valid() && limiter.Valid()
      ensures PostOutcome(response, limiter.limits, reviews, stats)
           == PostReview(old(limiter.limits), limiter.windowMs, limiter.maxRequests, session, body, old(reviews), old(stats), now)
    {
      if session.None? {
        return Unauthorized;
      }
      var user := session.value;
      if user.isBanned {
        return Banned;
      }
      var check := limiter.Check(user.id, now);
      match Guard(check, body, reviews, user.id, now)
      case Answer(r) =>
        response := r;
      case Create(req) =>
        var review := NewReview(req, user.id);
        PostKeepsTablesValid(old(limiter.limits), limiter.windowMs, limiter.maxRequests, session, body, reviews, stats, now);
        reviews := [review] + reviews;
        UpdateMovieStats(review.tmdbId);
        response := Created(review);
    }

    /** `updateMovieStats(tmdbId)`. */
    method UpdateMovieStats(tmdbId: int)
      modifies this
      ensures reviews == old(reviews)
      ensures stats == UpdateStats(reviews, old(stats), tmdbId)
    {
      var visible := Visible(reviews, tmdbId);
      if |visible| > 0 {
        stats := stats[tmdbId := StatsRow(visible)];
      }
    }

    /** `GET /api/reviews`. */
    method List(tmdbId: int, page: int, limitParam: int) returns (response: ListResponse)
      requires limitParam >= 1
      ensures response == ListReviews(reviews, tmdbId, page, limitParam)
    {
      response := ListReviews(reviews, tmdbId, page, limitParam);
    }
  }
}
