/**
  The selective summary of the admin dashboard (GetAnalyticsSummary in
  infra/mysql/analytics_repository.go): only the queries that some requested field is served by
  are run, and averages and ratios are derived from what was loaded.

  The database is one snapshot: each query has its answer there, or fails.
 */
module AnalyticsSummary {
  import opened Wrappers
  import F = FieldSet

  /** The counters filled by one COUNT query each. */
  datatype Counter =
    | TotalUsers | NewUsersToday | NewUsersThisWeek | NewUsersThisMonth | FrozenUsersCount
    | TotalPosts | TotalComments | TotalDeletedPosts | TotalLikes | TotalCommunities | TotalMessages
    | TotalReports | TotalBlocks | TotalInquiries | CurrentActiveUsers | DAU | WAU | MAU
    | PostsToday | CommentsToday | MessagesToday | ActiveCommunitiesLast30Days | TotalFollows
    | UsersWithProfile | UsersWithAvatar | UsersWithPost | TotalNotifications | ReadNotifications
    | PendingReports | ResolvedReports | UniqueDMSenders | PostsTextOnly | PostsWithImage | PostsWithVideo

  /** The averages and ratios. */
  datatype Rate =
    | AvgLikesPerPost | AvgCommentsPerPost | NotificationReadRate | DauMauRatio
    | AvgCommunityMembers | AvgCommunitiesPerUser | AvgFollowersPerUser | AvgFollowingPerUser
    | OnboardingCompleteRate | AvgTimeToFirstPostMinutes
    | AvgSessionDurationSeconds | AvgSessionsPerDay | AvgScrollDepth

  /** The fields that need the database. */
  datatype Field = CountField(counter: Counter) | RateField(rate: Rate) | PageViewStats

  datatype PageViewStat = PageViewStat(
    pagePath: string, avgDurationSeconds: real, avgMaxScrollDepth: real, totalViews: int)

  /** The in-memory metrics (summaryNoSQLFields). */
  datatype Infra = Infra(webSocketConnections: int, sseConnections: int, errorRate5xx: real,
                         p50ResponseTimeMs: real, p95ResponseTimeMs: real, p99ResponseTimeMs: real)

  /** model.AnalyticsSummary; a counter absent from the map has Go's zero value. */
  datatype Summary = Summary(
    counts: map<Counter, int>, rates: Rate -> real, pageViewStats: seq<PageViewStat>, infra: Infra)

  /** The queries of one summary. */
  datatype Query =
    | CountQuery(counter: Counter)
    | MembersQuery
    | OnboardingQuery
    | AverageQuery(rate: Rate)
    | PageViewQuery

  /** One database state. An average over no rows is NULL (None). */
  datatype Snapshot = Snapshot(count: Counter -> int, members: int, onboarding: int,
                               average: Rate -> Option<real>, pageViews: seq<PageViewStat>, fails: Query -> bool)

  const COUNTERS: seq<Counter> := [
    TotalUsers, NewUsersToday, NewUsersThisWeek, NewUsersThisMonth, FrozenUsersCount,
    TotalPosts, TotalComments, TotalDeletedPosts, TotalLikes, TotalCommunities, TotalMessages,
    TotalReports, TotalBlocks, TotalInquiries, CurrentActiveUsers, DAU, WAU, MAU,
    PostsToday, CommentsToday, MessagesToday, ActiveCommunitiesLast30Days, TotalFollows,
    UsersWithProfile, UsersWithAvatar, UsersWithPost, TotalNotifications, ReadNotifications,
    PendingReports, ResolvedReports, UniqueDMSenders, PostsTextOnly, PostsWithImage, PostsWithVideo]

  /** The `serves` lists of summaryIntQueries. */
  function Serves(c: Counter): seq<Field> {
    match c
    case TotalUsers =>
      [CountField(c), RateField(AvgCommunitiesPerUser), RateField(AvgFollowersPerUser), RateField(AvgFollowingPerUser),
       RateField(OnboardingCompleteRate)]
    case TotalPosts => [CountField(c), RateField(AvgLikesPerPost), RateField(AvgCommentsPerPost)]
    case TotalComments => [CountField(c), RateField(AvgCommentsPerPost)]
    case TotalLikes => [CountField(c), RateField(AvgLikesPerPost)]
    case TotalCommunities => [CountField(c), RateField(AvgCommunityMembers)]
    case DAU => [CountField(c), RateField(DauMauRatio)]
    case MAU => [CountField(c), RateField(DauMauRatio)]
    case TotalFollows => [CountField(c), RateField(AvgFollowersPerUser), RateField(AvgFollowingPerUser)]
    case TotalNotifications => [CountField(c), RateField(NotificationReadRate)]
    case ReadNotifications => [CountField(c), RateField(NotificationReadRate)]
    case _ => [CountField(c)]
  }

  // ----- What is requested

  /** The requested names, and the GraphQL name of each field. Nothing below depends on the spelling. */
  datatype Request = Request(fields: F.FieldSet, nameOf: Field -> string)

  function NamesOf(nameOf: Field -> string, fs: seq<Field>): (names: seq<string>)
    ensures |names| == |fs| && forall i :: 0 <= i < |fs| ==> names[i] == nameOf(fs[i])
  {
    if fs == [] then [] else [nameOf(fs[0])] + NamesOf(nameOf, fs[1..])
  }

  predicate Requested(req: Request, f: Field) {
    req.fields.All? || req.nameOf(f) in req.fields.names
  }

  // ----- What each field means

  datatype Value = Int(i: int) | Real(r: real) | Pages(pages: seq<PageViewStat>)

  function Count(s: Summary, c: Counter): int {
    if c in s.counts then s.counts[c] else 0
  }

  function ValueOf(s: Summary, f: Field): Value {
    match f
    case CountField(c) => Int(Count(s, c))
    case RateField(r) => Real(s.rates(r))
    case PageViewStats => Pages(s.pageViewStats)
  }

  /** A quotient of counts; 0 when there is nothing to divide by. */
  function Quotient(n: int, d: int): real {
    if d > 0 then n as real / d as real else 0.0
  }

  /** The value each average and ratio has in a database state, by its definition. */
  function TrueRate(db: Snapshot, r: Rate): real {
    match r
    case AvgLikesPerPost => Quotient(db.count(TotalLikes), db.count(TotalPosts))
    case AvgCommentsPerPost => Quotient(db.count(TotalComments), db.count(TotalPosts))
    case NotificationReadRate => Quotient(db.count(ReadNotifications), db.count(TotalNotifications)) * 100.0
    case DauMauRatio => Quotient(db.count(DAU), db.count(MAU)) * 100.0
    case AvgCommunityMembers => Quotient(db.members, db.count(TotalCommunities))
    case AvgCommunitiesPerUser => Quotient(db.members, db.count(TotalUsers))
    case AvgFollowersPerUser => Quotient(db.count(TotalFollows), db.count(TotalUsers))
    case AvgFollowingPerUser => Quotient(db.count(TotalFollows), db.count(TotalUsers))
    case OnboardingCompleteRate => Quotient(db.onboarding, db.count(TotalUsers)) * 100.0
    case _ => (match db.average(r) case Some(v) => v case None => 0.0)
  }

  function TrueValue(db: Snapshot, f: Field): Value {
    match f
    case CountField(c) => Int(db.count(c))
    case RateField(r) => Real(TrueRate(db, r))
    case PageViewStats => Pages(db.pageViews)
  }

  /** The queries whose answers the value of a field depends on, read off its definition. */
  predicate Reads(f: Field, q: Query) {
    match f
    case CountField(c) => q == CountQuery(c)
    case PageViewStats => q == PageViewQuery
    case RateField(r) =>
      match r
      case AvgLikesPerPost => q == CountQuery(TotalLikes) || q == CountQuery(TotalPosts)
      case AvgCommentsPerPost => q == CountQuery(TotalComments) || q == CountQuery(TotalPosts)
      case NotificationReadRate => q == CountQuery(ReadNotifications) || q == CountQuery(TotalNotifications)
      case DauMauRatio => q == CountQuery(DAU) || q == CountQuery(MAU)
      case AvgCommunityMembers => q == MembersQuery || q == CountQuery(TotalCommunities)
      case AvgCommunitiesPerUser => q == MembersQuery || q == CountQuery(TotalUsers)
      case AvgFollowersPerUser => q == CountQuery(TotalFollows) || q == CountQuery(TotalUsers)
      case AvgFollowingPerUser => q == CountQuery(TotalFollows) || q == CountQuery(TotalUsers)
      case OnboardingCompleteRate => q == OnboardingQuery || q == CountQuery(TotalUsers)
      case _ => q == AverageQuery(r)
  }

  /** Query `q` is needed: some requested field depends on it. */
  ghost predicate Needed(req: Request, q: Query) {
    exists f :: Requested(req, f) && Reads(f, q)
  }

  ghost predicate NeededFails(req: Request, db: Snapshot, q: Query) {
    Needed(req, q) && db.fails(q)
  }

  /** A field's value is a function of the answers it reads. */
  lemma ReadsAreEnough(db: Snapshot, other: Snapshot, f: Field)
    requires forall c :: Reads(f, CountQuery(c)) ==> db.count(c) == other.count(c)
    requires Reads(f, MembersQuery) ==> db.members == other.members
    requires Reads(f, OnboardingQuery) ==> db.onboarding == other.onboarding
    requires forall r :: Reads(f, AverageQuery(r)) ==> db.average(r) == other.average(r)
    requires Reads(f, PageViewQuery) ==> db.pageViews == other.pageViews
    ensures TrueValue(db, f) == TrueValue(other, f)
  {
  }

  // ----- The serves lists are right

  lemma EveryCounterIsListed(c: Counter)
    ensures c in COUNTERS
  {
  }

  /** A counter's list names exactly the fields that read its query. */
  lemma ServesAreTheReaders(c: Counter, f: Field)
    ensures f in Serves(c) <==> Reads(f, CountQuery(c))
  {
  }

  lemma WantsSomeField(req: Request, fs: seq<Field>)
    ensures F.Wants(req.fields, NamesOf(req.nameOf, fs)) <==>
              req.fields.All? || exists f :: f in fs && Requested(req, f)
  {
    var names := NamesOf(req.nameOf, fs);
    if i :| 0 <= i < |names| && !req.fields.All? && names[i] in req.fields.names {
      assert fs[i] in fs && Requested(req, fs[i]);
    }
    if f :| f in fs && Requested(req, f) {
      var i :| 0 <= i < |fs| && fs[i] == f;
      assert names[i] == req.nameOf(f);
    }
  }

  lemma CountIsNeeded(req: Request, c: Counter)
    ensures F.Wants(req.fields, NamesOf(req.nameOf, Serves(c))) <==> Needed(req, CountQuery(c))
  {
    WantsSomeField(req, Serves(c));
    ServesAreTheReaders(c, CountField(c));
    if f :| f in Serves(c) && Requested(req, f) {
      ServesAreTheReaders(c, f);
    }
    if f :| Requested(req, f) && Reads(f, CountQuery(c)) {
      ServesAreTheReaders(c, f);
    }
    assert req.fields.All? ==> Requested(req, CountField(c));
  }

  // ----- GetAnalyticsSummary

  method Want(req: Request, fs: seq<Field>) returns (r: bool)
    requires fs != []
    ensures r <==> exists f :: f in fs && Requested(req, f)
  {
    r := F.ComputeWants(req.fields, NamesOf(req.nameOf, fs));
    WantsSomeField(req, fs);
    assert fs[0] in fs;
  }

  /** The loop over summaryIntQueries. */
  method LoadCounts(req: Request, db: Snapshot) returns (r: Result<map<Counter, int>, DbError>)
    ensures r.Failure? <==> exists c :: NeededFails(req, db, CountQuery(c))
    ensures r.Success? ==> forall c :: if Needed(req, CountQuery(c)) then c in r.value && r.value[c] == db.count(c)
                                       else c !in r.value
  {
    var counts: map<Counter, int> := map[];
    for i := 0 to |COUNTERS|
      invariant forall c :: c in counts <==> c in COUNTERS[..i] && Needed(req, CountQuery(c))
      invariant forall c :: c in counts ==> counts[c] == db.count(c) && !db.fails(CountQuery(c))
    {
      var c := COUNTERS[i];
      assert COUNTERS[..i + 1] == COUNTERS[..i] + [c];
      CountIsNeeded(req, c);
      var wanted := F.ComputeWants(req.fields, NamesOf(req.nameOf, Serves(c)));
      if !wanted {
        continue;
      }
      if db.fails(CountQuery(c)) {
        return Failure(DbError("count"));
      }
      counts := counts[c := db.count(c)];
    }
    assert COUNTERS[..|COUNTERS|] == COUNTERS;
    forall c
      ensures c in COUNTERS
    {
      EveryCounterIsListed(c);
    }
    return Success(counts);
  }

  /** What the queries left behind; an answer that was not asked for is zero (or NULL). */
  datatype Answers = Answers(counts: map<Counter, int>, members: int, onboarding: int,
                             average: Rate -> Option<real>, pageViews: seq<PageViewStat>)

  function CountIn(counts: map<Counter, int>, c: Counter): int {
    if c in counts then counts[c] else 0
  }

  /** The derived values of the second half: divided only when wanted and when there is something to divide by. */
  function Derived(req: Request, a: Answers, r: Rate): real {
    var users, posts := CountIn(a.counts, TotalUsers), CountIn(a.counts, TotalPosts);
    var wanted := Requested(req, RateField(r));
    match r
    case AvgLikesPerPost =>
      if wanted && posts > 0 then CountIn(a.counts, TotalLikes) as real / posts as real else 0.0
    case AvgCommentsPerPost =>
      if wanted && posts > 0 then CountIn(a.counts, TotalComments) as real / posts as real else 0.0
    case NotificationReadRate =>
      var total := CountIn(a.counts, TotalNotifications);
      if wanted && total > 0 then CountIn(a.counts, ReadNotifications) as real / total as real * 100.0 else 0.0
    case DauMauRatio =>
      var mau := CountIn(a.counts, MAU);
      if wanted && mau > 0 then CountIn(a.counts, DAU) as real / mau as real * 100.0 else 0.0
    case AvgCommunityMembers =>
      var communities := CountIn(a.counts, TotalCommunities);
      if wanted && communities > 0 then a.members as real / communities as real else 0.0
    case AvgCommunitiesPerUser => if wanted && users > 0 then a.members as real / users as real else 0.0
    case AvgFollowersPerUser =>
      if users > 0 && wanted then CountIn(a.counts, TotalFollows) as real / users as real else 0.0
    case AvgFollowingPerUser =>
      if users > 0 && wanted then CountIn(a.counts, TotalFollows) as real / users as real else 0.0
    case OnboardingCompleteRate => if wanted && users > 0 then a.onboarding as real / users as real * 100.0 else 0.0
    case _ => if a.average(r).Some? then a.average(r).value else 0.0
  }

  /** Each needed answer was loaded, and no other. */
  ghost predicate Loaded(req: Request, db: Snapshot, a: Answers) {
    && (forall c :: if Needed(req, CountQuery(c)) then c in a.counts && a.counts[c] == db.count(c) else c !in a.counts)
    && a.members == (if Needed(req, MembersQuery) then db.members else 0)
    && a.onboarding == (if Needed(req, OnboardingQuery) then db.onboarding else 0)
    && (forall r :: a.average(r) == if Needed(req, AverageQuery(r)) then db.average(r) else None)
    && a.pageViews == (if Needed(req, PageViewQuery) then db.pageViews else [])
  }

  /** Whatever a requested field reads was loaded. */
  ghost predicate LoadedFor(db: Snapshot, a: Answers, f: Field) {
    && (forall c :: Reads(f, CountQuery(c)) ==> CountIn(a.counts, c) == db.count(c))
    && (Reads(f, MembersQuery) ==> a.members == db.members)
    && (Reads(f, OnboardingQuery) ==> a.onboarding == db.onboarding)
    && (forall r :: Reads(f, AverageQuery(r)) ==> a.average(r) == db.average(r))
  }

  lemma RequestedIsLoaded(req: Request, db: Snapshot, a: Answers, f: Field)
    requires Loaded(req, db, a) && Requested(req, f)
    ensures LoadedFor(db, a, f)
  {
    assert forall q :: Reads(f, q) ==> Needed(req, q);
  }

  lemma LoadedIsEnough(req: Request, db: Snapshot, a: Answers, r: Rate)
    requires LoadedFor(db, a, RateField(r)) && Requested(req, RateField(r))
    ensures Derived(req, a, r) == TrueRate(db, r)
  {
  }

  /** Every numerator and denominator of a requested value was loaded, so it is right. */
  lemma DerivedIsRight(req: Request, db: Snapshot, a: Answers, r: Rate)
    requires Loaded(req, db, a) && Requested(req, RateField(r))
    ensures Derived(req, a, r) == TrueRate(db, r)
  {
    RequestedIsLoaded(req, db, a, RateField(r));
    LoadedIsEnough(req, db, a, r);
  }

  /** The average queries, and which of them run (the first-post one, and those of loadSessionStats). */
  predicate IsAverage(r: Rate) {
    r.AvgTimeToFirstPostMinutes? || r.AvgSessionDurationSeconds? || r.AvgSessionsPerDay? || r.AvgScrollDepth?
  }

  lemma AverageIsNeeded(req: Request, r: Rate)
    ensures Needed(req, AverageQuery(r)) <==> IsAverage(r) && Requested(req, RateField(r))
  {
    assert IsAverage(r) ==> Reads(RateField(r), AverageQuery(r));
  }

  lemma OthersAreNeeded(req: Request)
    ensures Needed(req, MembersQuery) <==>
              Requested(req, RateField(AvgCommunityMembers)) || Requested(req, RateField(AvgCommunitiesPerUser))
    ensures Needed(req, OnboardingQuery) <==> Requested(req, RateField(OnboardingCompleteRate))
    ensures Needed(req, PageViewQuery) <==> Requested(req, PageViewStats)
  {
    assert Reads(RateField(AvgCommunityMembers), MembersQuery) && Reads(RateField(AvgCommunitiesPerUser), MembersQuery);
    assert Reads(RateField(OnboardingCompleteRate), OnboardingQuery) && Reads(PageViewStats, PageViewQuery);
  }

  lemma OneWanted(req: Request, f: Field)
    ensures (exists g :: g in [f] && Requested(req, g)) <==> Requested(req, f)
  {
    assert [f][0] == f;
  }

  /** One guarded average query: its answer if it is wanted and does not fail. */
  method LoadAverage(req: Request, db: Snapshot, r: Rate) returns (ok: bool, average: Option<real>)
    requires IsAverage(r)
    ensures ok <==> !(Needed(req, AverageQuery(r)) && db.fails(AverageQuery(r)))
    ensures ok ==> average == if Needed(req, AverageQuery(r)) then db.average(r) else None
  {
    AverageIsNeeded(req, r);
    OneWanted(req, RateField(r));
    var wanted := Want(req, [RateField(r)]);
    if !wanted {
      return true, None;
    }
    return !db.fails(AverageQuery(r)), db.average(r);
  }

  function AveragesOf(firstPost: Option<real>, duration: Option<real>, sessions: Option<real>, scroll: Option<real>,
                      r: Rate)
    : Option<real>
  {
    match r
    case AvgTimeToFirstPostMinutes => firstPost
    case AvgSessionDurationSeconds => duration
    case AvgSessionsPerDay => sessions
    case AvgScrollDepth => scroll
    case _ => None
  }

  /** The answers of loadSessionStats and of the first-post query. */
  method LoadAverages(req: Request, db: Snapshot) returns (r: Result<Rate -> Option<real>, DbError>)
    ensures r.Failure? <==> exists x :: NeededFails(req, db, AverageQuery(x))
    ensures r.Success? ==> forall x :: r.value(x) == if Needed(req, AverageQuery(x)) then db.average(x) else None
  {
    var ok1, firstPost := LoadAverage(req, db, AvgTimeToFirstPostMinutes);
    var ok2, duration := LoadAverage(req, db, AvgSessionDurationSeconds);
    var ok3, sessions := LoadAverage(req, db, AvgSessionsPerDay);
    var ok4, scroll := LoadAverage(req, db, AvgScrollDepth);
    if !(ok1 && ok2 && ok3 && ok4) {
      return Failure(DbError("average"));
    }
    forall x
      ensures !(Needed(req, AverageQuery(x)) && db.fails(AverageQuery(x)))
      ensures AveragesOf(firstPost, duration, sessions, scroll, x)
           == if Needed(req, AverageQuery(x)) then db.average(x) else None
    {
      AverageIsNeeded(req, x);
    }
    return Success((x: Rate) => AveragesOf(firstPost, duration, sessions, scroll, x));
  }

  /** The guards of the three remaining queries. */
  method WantMembers(req: Request) returns (r: bool)
    ensures r <==> Needed(req, MembersQuery)
  {
    OthersAreNeeded(req);
    var fs := [RateField(AvgCommunityMembers), RateField(AvgCommunitiesPerUser)];
    assert fs[0] in fs && fs[1] in fs;
    r := Want(req, fs);
  }

  method WantOnboarding(req: Request) returns (r: bool)
    ensures r <==> Needed(req, OnboardingQuery)
  {
    OthersAreNeeded(req);
    OneWanted(req, RateField(OnboardingCompleteRate));
    r := Want(req, [RateField(OnboardingCompleteRate)]);
  }

  method WantPages(req: Request) returns (r: bool)
    ensures r <==> Needed(req, PageViewQuery)
  {
    OthersAreNeeded(req);
    OneWanted(req, PageViewStats);
    r := Want(req, [PageViewStats]);
  }

  /** A failing query is one of those run at the five places below. */
  lemma FailuresByPlace(req: Request, db: Snapshot)
    ensures (exists q :: NeededFails(req, db, q)) <==>
              || (exists c :: NeededFails(req, db, CountQuery(c)))
              || NeededFails(req, db, MembersQuery)
              || NeededFails(req, db, OnboardingQuery)
              || (exists x :: NeededFails(req, db, AverageQuery(x)))
              || NeededFails(req, db, PageViewQuery)
  {
    if q :| NeededFails(req, db, q) {
      match q
      case CountQuery(c) => assert NeededFails(req, db, CountQuery(c));
      case AverageQuery(x) => assert NeededFails(req, db, AverageQuery(x));
      case _ =>
    }
  }

  /** Runs the queries that the requested fields need, and no other; any failure among them fails the summary. */
  method Load(req: Request, db: Snapshot) returns (r: Result<Answers, DbError>)
    ensures r.Failure? <==> exists q :: NeededFails(req, db, q)
    ensures r.Success? ==> Loaded(req, db, r.value)
  {
    FailuresByPlace(req, db);
    var counts := LoadCounts(req, db);
    if counts.Failure? {
      return Failure(counts.error);
    }
    var wantMembers := WantMembers(req);
    if wantMembers && db.fails(MembersQuery) {
      return Failure(DbError("members"));
    }
    var wantOnboarding := WantOnboarding(req);
    if wantOnboarding && db.fails(OnboardingQuery) {
      return Failure(DbError("onboarding"));
    }
    var averages := LoadAverages(req, db);
    if averages.Failure? {
      return Failure(averages.error);
    }
    var wantPages := WantPages(req);
    if wantPages && db.fails(PageViewQuery) {
      return Failure(DbError("page views"));
    }
    return Success(Answers(counts.value,
                           if wantMembers then db.members else 0, if wantOnboarding then db.onboarding else 0,
                           averages.value, if wantPages then db.pageViews else []));
  }

  /**
    GetAnalyticsSummary: it fails exactly when a needed query fails, every requested field has its
    true value in this database state, and a counter that no requested field needs is left at zero.
   */
  method GetAnalyticsSummary(req: Request, db: Snapshot, infra: Infra) returns (r: Result<Summary, DbError>)
    ensures r.Failure? <==> exists q :: NeededFails(req, db, q)
    ensures r.Success? ==> forall f :: Requested(req, f) ==> ValueOf(r.value, f) == TrueValue(db, f)
    // Said of each number itself:
    ensures r.Success? ==> forall c :: Requested(req, CountField(c)) ==>
                             c in r.value.counts && r.value.counts[c] == db.count(c)
    ensures r.Success? ==> forall x :: Requested(req, RateField(x)) ==> Means(x, r.value.rates(x), db)
    ensures r.Success? && Requested(req, PageViewStats) ==> r.value.pageViewStats == db.pageViews
    ensures r.Success? ==> forall c :: !Needed(req, CountQuery(c)) ==> c !in r.value.counts
    ensures r.Success? ==> r.value.infra == infra
  {
    var answers := Load(req, db);
    if answers.Failure? {
      return Failure(answers.error);
    }
    var a := answers.value;
    var s := Summary(a.counts, r => Derived(req, a, r), a.pageViews, infra);
    forall f | Requested(req, f)
      ensures ValueOf(s, f) == TrueValue(db, f)
    {
      match f
      case CountField(c) => assert Reads(f, CountQuery(c)) && Needed(req, CountQuery(c));
      case RateField(r) => DerivedIsRight(req, db, a, r);
      case PageViewStats => assert Reads(f, PageViewQuery) && Needed(req, PageViewQuery);
    }
    forall c | Requested(req, CountField(c))
      ensures c in s.counts && s.counts[c] == db.count(c)
    {
      assert Reads(CountField(c), CountQuery(c)) && Needed(req, CountQuery(c));
    }
    forall x | Requested(req, RateField(x))
      ensures Means(x, s.rates(x), db)
    {
      assert ValueOf(s, RateField(x)) == TrueValue(db, RateField(x));
      TrueRateMeans(db, x);
    }
    assert Requested(req, PageViewStats) ==> ValueOf(s, PageViewStats) == TrueValue(db, PageViewStats);
    return Success(s);
  }

  // ----- What the values mean

  /** `value` is n / d; 0 when there is nothing to divide by. */
  predicate IsQuotient(value: real, n: int, d: int) {
    if d > 0 then value * d as real == n as real else value == 0.0
  }

  /** `value` is n / d in percent. */
  predicate IsPercentage(value: real, n: int, d: int) {
    if d > 0 then value * d as real == 100.0 * n as real else value == 0.0
  }

  /** `value` is the average that the database gave; 0 for NULL. */
  predicate IsAnswer(value: real, answer: Option<real>) {
    if answer.Some? then value == answer.value else value == 0.0
  }

  /** What the rate says of the database state. */
  predicate Means(r: Rate, value: real, db: Snapshot) {
    match r
    case AvgLikesPerPost => IsQuotient(value, db.count(TotalLikes), db.count(TotalPosts))
    case AvgCommentsPerPost => IsQuotient(value, db.count(TotalComments), db.count(TotalPosts))
    case NotificationReadRate => IsPercentage(value, db.count(ReadNotifications), db.count(TotalNotifications))
    case DauMauRatio => IsPercentage(value, db.count(DAU), db.count(MAU))
    case AvgCommunityMembers => IsQuotient(value, db.members, db.count(TotalCommunities))
    case AvgCommunitiesPerUser => IsQuotient(value, db.members, db.count(TotalUsers))
    case AvgFollowersPerUser => IsQuotient(value, db.count(TotalFollows), db.count(TotalUsers))
    case AvgFollowingPerUser => IsQuotient(value, db.count(TotalFollows), db.count(TotalUsers))
    case OnboardingCompleteRate => IsPercentage(value, db.onboarding, db.count(TotalUsers))
    case AvgTimeToFirstPostMinutes => IsAnswer(value, db.average(r))
    case AvgSessionDurationSeconds => IsAnswer(value, db.average(r))
    case AvgSessionsPerDay => IsAnswer(value, db.average(r))
    case AvgScrollDepth => IsAnswer(value, db.average(r))
  }

  lemma QuotientTimesDenominator(n: int, d: int)
    requires d > 0
    ensures Quotient(n, d) * d as real == n as real && Quotient(n, d) * 100.0 * d as real == 100.0 * n as real
  {
    var q := Quotient(n, d);
    assert q * d as real == n as real;
    assert q * 100.0 * d as real == 100.0 * (q * d as real);
  }

  lemma TrueRateMeans(db: Snapshot, r: Rate)
    ensures Means(r, TrueRate(db, r), db)
  {
    forall n: int, d: int | d > 0
      ensures Quotient(n, d) * d as real == n as real && Quotient(n, d) * 100.0 * d as real == 100.0 * n as real
    {
      QuotientTimesDenominator(n, d);
    }
  }

  /** Where parts fit into their wholes, percentages lie between 0 and 100. */
  lemma PercentagesAreBounded(db: Snapshot, r: Rate, value: real)
    requires PartsFit(db) && db.onboarding >= 0 && forall c :: db.count(c) >= 0
    requires r.NotificationReadRate? || r.DauMauRatio? || r.OnboardingCompleteRate?
    requires Means(r, value, db)
    ensures 0.0 <= value <= 100.0
  {
    var n, d := if r.NotificationReadRate? then db.count(ReadNotifications) else if r.DauMauRatio? then db.count(DAU)
                else db.onboarding,
                if r.NotificationReadRate? then db.count(TotalNotifications) else if r.DauMauRatio? then db.count(MAU)
                else db.count(TotalUsers);
    assert PartOf(ReadNotifications, TotalNotifications) && PartOf(DAU, MAU);
    assert IsPercentage(value, n, d);
    PercentageIsBounded(value, n, d);
  }

  lemma PercentageIsBounded(value: real, n: int, d: int)
    requires 0 <= n <= d && IsPercentage(value, n, d)
    ensures 0.0 <= value <= 100.0
  {
    if d > 0 {
      assert value < 0.0 ==> value * d as real < 0.0;
      assert value > 100.0 ==> value * d as real > 100.0 * d as real;
    }
  }

  // ----- Selective and full summaries agree

  /** On everything that `req` requests, the two summaries show the same. */
  ghost predicate AgreeOn(req: Request, s: Summary, t: Summary) {
    forall f :: Requested(req, f) ==> ValueOf(s, f) == ValueOf(t, f)
  }

  /** In one database state, the selective summary agrees with the all-fields one on what was requested. */
  method SelectiveAgreesWithFull(req: Request, db: Snapshot, infra: Infra)
    returns (selective: Result<Summary, DbError>, full: Result<Summary, DbError>)
    ensures full.Success? ==> selective.Success?
    ensures full.Success? ==> AgreeOn(req, selective.value, full.value)
  {
    selective := GetAnalyticsSummary(req, db, infra);
    full := GetAnalyticsSummary(Request(F.All, req.nameOf), db, infra);
    if q :| NeededFails(req, db, q) {
      var f :| Requested(req, f) && Reads(f, q);
      assert Requested(Request(F.All, req.nameOf), f);
      assert NeededFails(Request(F.All, req.nameOf), db, q);
    }
    assert forall f :: Requested(Request(F.All, req.nameOf), f);
  }

  /** The two database states answer every query but `q` alike. */
  ghost predicate SameExcept(q: Query, db: Snapshot, other: Snapshot) {
    && (forall c :: q != CountQuery(c) ==> db.count(c) == other.count(c))
    && (q != MembersQuery ==> db.members == other.members)
    && (q != OnboardingQuery ==> db.onboarding == other.onboarding)
    && (forall r :: q != AverageQuery(r) ==> db.average(r) == other.average(r))
    && (q != PageViewQuery ==> db.pageViews == other.pageViews)
  }

  /** What `part` counts is also counted by `whole`. */
  predicate PartOf(part: Counter, whole: Counter) {
    match part
    case DAU => whole == WAU || whole == MAU
    case NewUsersToday => whole == NewUsersThisWeek || whole == NewUsersThisMonth
    case FrozenUsersCount => whole == TotalUsers
    case UsersWithAvatar => whole == UsersWithProfile
    case PostsToday | PostsTextOnly | PostsWithImage | PostsWithVideo => whole == TotalPosts
    case CommentsToday => whole == TotalComments
    case MessagesToday => whole == TotalMessages
    case ActiveCommunitiesLast30Days => whole == TotalCommunities
    case ReadNotifications => whole == TotalNotifications
    case PendingReports | ResolvedReports => whole == TotalReports
    case _ => false
  }

  ghost predicate PartsFit(db: Snapshot) {
    && (forall c, d :: PartOf(c, d) ==> db.count(c) <= db.count(d))
    && db.onboarding <= db.count(TotalUsers)
  }

  /** Two of each part, four of each whole. */
  function Typical(c: Counter): int {
    match c
    case TotalUsers | TotalPosts | TotalComments | TotalMessages | TotalCommunities | TotalNotifications | TotalReports
      | WAU | MAU | NewUsersThisWeek | NewUsersThisMonth | UsersWithProfile => 4
    case _ => 2
  }

  /** The answers of `db` are typical; only that to `q` is another one in `other`. */
  ghost predicate TypicalExcept(q: Query, db: Snapshot, other: Snapshot) {
    && (forall c :: db.count(c) == Typical(c) && other.count(c) == Typical(c) + if q == CountQuery(c) then 1 else 0)
    && db.members == db.onboarding == 2
    && other.members == (if q == MembersQuery then 3 else 2)
    && other.onboarding == (if q == OnboardingQuery then 3 else 2)
    && (forall r :: db.average(r) == Some(1.0) && other.average(r) == Some(if q == AverageQuery(r) then 2.0 else 1.0))
    && db.pageViews == []
    && (q == PageViewQuery <==> other.pageViews != [])
  }

  lemma OneMoreChangesQuotient(n: int, d: int)
    requires n > 0 && d > 0
    ensures Quotient(n + 1, d) != Quotient(n, d) && Quotient(n, d + 1) != Quotient(n, d)
  {
    var a, b, e := n as real, d as real, (d + 1) as real;
    assert (n + 1) as real / b == a / b + 1.0 / b && 1.0 / b > 0.0;
    assert a / b - a / e == a / (b * e) > 0.0;
  }

  lemma OneAnswerChangesRate(r: Rate, q: Query, db: Snapshot, other: Snapshot)
    requires Reads(RateField(r), q) && TypicalExcept(q, db, other)
    ensures TrueRate(db, r) != TrueRate(other, r)
  {
    OneMoreChangesQuotient(2, 2);
    OneMoreChangesQuotient(2, 4);
    OneMoreChangesQuotient(4, 2);
    OneMoreChangesQuotient(4, 4);
  }

  lemma TypicalPartsFit(q: Query, db: Snapshot, other: Snapshot)
    requires TypicalExcept(q, db, other)
    ensures PartsFit(db) && PartsFit(other)
  {
    forall c, d | PartOf(c, d)
      ensures db.count(c) <= db.count(d) && other.count(c) <= other.count(d)
    {
      assert Typical(c) == 2 && Typical(d) == 4;
    }
  }

  lemma TypicalStates(q: Query) returns (db: Snapshot, other: Snapshot)
    ensures TypicalExcept(q, db, other) && SameExcept(q, db, other)
  {
    db := Snapshot(Typical, 2, 2, _ => Some(1.0), [], _ => false);
    other := Snapshot(c => Typical(c) + if q == CountQuery(c) then 1 else 0,
                      if q == MembersQuery then 3 else 2,
                      if q == OnboardingQuery then 3 else 2,
                      r => Some(if q == AverageQuery(r) then 2.0 else 1.0),
                      if q == PageViewQuery then [PageViewStat("/", 1.0, 1.0, 1)] else [],
                      _ => false);
  }

  /** Leaving out a needed query would show: some requested value changes with that query's answer alone. */
  lemma NeededQueryMatters(req: Request, q: Query) returns (f: Field, db: Snapshot, other: Snapshot)
    requires Needed(req, q)
    ensures Requested(req, f) && TrueValue(db, f) != TrueValue(other, f)
    ensures SameExcept(q, db, other) && PartsFit(db) && PartsFit(other)
  {
    f :| Requested(req, f) && Reads(f, q);
    db, other := TypicalStates(q);
    TypicalPartsFit(q, db, other);
    if f.RateField? {
      OneAnswerChangesRate(f.rate, q, db, other);
    }
  }
}
