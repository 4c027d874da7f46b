/**
 * app/api/reading-progress/route.ts: the server route that stores and lists
 * reading progress. POST checks the JSON body and upserts one row; GET lists
 * the rows of one user or anonymous id. The database calls are not part of
 * this model: whether they fail is a parameter.
 */
module ReadingProgressRoute {
  import opened Wrappers

  /** The fields POST reads from the body; `None` is a missing or null field. */
  datatype PostBody = PostBody(mangaId: Option<int>, chapterId: Option<int>, chapterNumber: Option<int>,
                               userId: Option<string>, anonId: Option<string>)

  /** The row POST upserts into `reading_progress`. */
  datatype Payload = Payload(mangaId: int, chapterId: int, chapterNumber: Option<int>, updatedAt: string,
                             userId: Option<string>, anonId: Option<string>)

  /** An HTTP status and, for POST, the row handed to the database (if any). */
  datatype PostOutcome = PostOutcome(status: int, sent: Option<Payload>)

  /** POST's check: both ids truthy (0 is not), and a truthy user id or anonymous id. */
  predicate PostValid(b: PostBody) {
    TruthyInt(b.mangaId) && TruthyInt(b.chapterId) && (TruthyStr(b.userId) || TruthyStr(b.anonId))
  }

  /** The payload: `anon_id` only when there is no truthy user id; missing values become null. */
  function PayloadFor(b: PostBody, now: string): (p: Payload)
    requires PostValid(b)
    ensures p.mangaId == b.mangaId.value && p.chapterId == b.chapterId.value
    ensures p.chapterNumber == b.chapterNumber && p.updatedAt == now && p.userId == b.userId
    ensures TruthyStr(b.userId) ==> p.anonId.None?
    ensures !TruthyStr(b.userId) ==> p.anonId == b.anonId
  {
    Payload(b.mangaId.value, b.chapterId.value, b.chapterNumber, now, b.userId,
            if TruthyStr(b.userId) then None else b.anonId)
  }

  /**
   * POST. `body` is `None` when it is not JSON (`req.json()` throws);
   * `dbFails` is the upsert's error. 400 for a failed check, 500 for a parse
   * or database error, 200 otherwise.
   */
  function Post(body: Option<PostBody>, now: string, dbFails: bool): (r: PostOutcome)
    ensures body.None? ==> r == PostOutcome(500, None)
    ensures body.Some? && !PostValid(body.value) ==> r == PostOutcome(400, None)
    ensures r.sent.Some? <==> body.Some? && PostValid(body.value)
    ensures r.sent.Some? ==> r.sent.value == PayloadFor(body.value, now) && r.status == (if dbFails then 500 else 200)
  {
    match body
    case None => PostOutcome(500, None)
    case Some(b) =>
      if !PostValid(b) then PostOutcome(400, None)
      else PostOutcome(if dbFails then 500 else 200, Some(PayloadFor(b, now)))
  }

  /**
   * Every row POST sends has exactly one non-empty owner: a truthy user id,
   * or else a truthy anonymous id; never both.
   */
  lemma PostOwner(body: Option<PostBody>, now: string, dbFails: bool)
    requires Post(body, now, dbFails).sent.Some?
    ensures var p := Post(body, now, dbFails).sent.value;
      (TruthyStr(p.userId) || TruthyStr(p.anonId)) && !(TruthyStr(p.userId) && TruthyStr(p.anonId))
  {
  }

  /** The column GET filters on. */
  datatype Column = UserIdColumn | AnonIdColumn

  /** An HTTP status and the filter GET queries with (if it gets that far). */
  datatype GetOutcome = GetOutcome(status: int, filter: Option<(Column, string)>)

  /**
   * GET as written: the column is `user_id` when `userId` is truthy, else
   * `anon_id`; the value is `userId ?? anonId`, which keeps an empty
   * `userId` rather than falling back.
   */
  function GetAsWritten(userId: Option<string>, anonId: Option<string>, dbFails: bool): (r: GetOutcome)
    ensures r.status == 400 <==> !TruthyStr(userId) && !TruthyStr(anonId)
    ensures r.filter.Some? <==> r.status != 400
    ensures r.filter.Some? ==> (r.filter.value.0 == UserIdColumn <==> TruthyStr(userId))
  {
    if !TruthyStr(userId) && !TruthyStr(anonId) then GetOutcome(400, None)
    else
      var col := if TruthyStr(userId) then UserIdColumn else AnonIdColumn;
      var val := if userId.Some? then userId.value else anonId.value;
      GetOutcome(if dbFails then 500 else 200, Some((col, val)))
  }

  /** With `?userId=&anonId=a` the query looks for rows whose `anon_id` is the empty string. */
  lemma GetEmptyUserId()
    ensures GetAsWritten(Some(""), Some("a"), false).filter == Some((AnonIdColumn, ""))
    ensures Get(Some(""), Some("a"), false).filter == Some((AnonIdColumn, "a"))
    ensures var b := PostBody(Some(1), Some(1), None, Some(""), Some("a"));
      var p := Post(Some(b), "t", false).sent.value;
      !Matches(p, GetAsWritten(Some(""), Some("a"), false).filter.value) &&
      Matches(p, Get(Some(""), Some("a"), false).filter.value)
  {
  }

  /**
   * GET with the value taken from the id whose column is used. 400 when
   * neither id is truthy; otherwise the filter is `user_id` = the user id
   * when that is truthy, else `anon_id` = the anonymous id, and 500 on a
   * database error.
   */
  function Get(userId: Option<string>, anonId: Option<string>, dbFails: bool): (r: GetOutcome)
    ensures r.status == 400 <==> !TruthyStr(userId) && !TruthyStr(anonId)
    ensures r.status != 400 ==> r.status == (if dbFails then 500 else 200)
    ensures r.filter.Some? <==> r.status != 400
    ensures r.filter.Some? ==> r.filter.value.1 != ""
    ensures r.filter.Some? && r.filter.value.0 == UserIdColumn ==> TruthyStr(userId) && r.filter.value.1 == userId.value
    ensures r.filter.Some? && r.filter.value.0 == AnonIdColumn ==> !TruthyStr(userId) && r.filter.value.1 == anonId.value
  {
    if !TruthyStr(userId) && !TruthyStr(anonId) then GetOutcome(400, None)
    else if TruthyStr(userId) then GetOutcome(if dbFails then 500 else 200, Some((UserIdColumn, userId.value)))
    else GetOutcome(if dbFails then 500 else 200, Some((AnonIdColumn, anonId.value)))
  }

  /** A stored row passes a GET filter: its value in the filtered column equals the filter's value. */
  predicate Matches(p: Payload, f: (Column, string)) {
    match f.0
    case UserIdColumn => p.userId == Some(f.1)
    case AnonIdColumn => p.anonId == Some(f.1)
  }

  /**
   * POST and GET agree on ownership: the row a valid POST writes is one that
   * GET with the same two ids filters for, and POST refuses (400) exactly the
   * bodies with a falsy manga or chapter id or with ids GET refuses too.
   */
  lemma PostGetAgree(b: PostBody, now: string, postFails: bool, getFails: bool)
    ensures PostValid(b) ==>
      var g := Get(b.userId, b.anonId, getFails);
      g.filter.Some? && Matches(Post(Some(b), now, postFails).sent.value, g.filter.value)
    ensures Post(Some(b), now, postFails).status == 400 <==>
      !TruthyInt(b.mangaId) || !TruthyInt(b.chapterId) || Get(b.userId, b.anonId, getFails).status == 400
  {
  }

  /** The two agree whenever `userId` is missing or non-empty. */
  lemma GetAgrees(userId: Option<string>, anonId: Option<string>, dbFails: bool)
    requires userId != Some("")
    ensures Get(userId, anonId, dbFails) == GetAsWritten(userId, anonId, dbFails)
  {
  }
}
