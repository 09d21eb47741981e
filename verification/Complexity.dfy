/**
  The weight of a GraphQL query (graph/complexity.go) against the work its resolvers may really do
  (graph/pagination_helpers.go).

  The weight of a limit-bearing field multiplies that of its children. The server's walk adds it up:
  a field for which no weight is given costs one more than its children.
 */
module Complexity {
  import opened Wrappers

  const DEFAULT_PAGE_SIZE := 20
  const MAX_PAGE_SIZE := 100
  const MAX_MESSAGE_PAGE_SIZE := 200
  const UNPAGED_COLLECTION_CAP := 500
  const MAX_OFFSET := 10000
  /** ComplexityLimit: what the server accepts. */
  const COMPLEXITY_LIMIT := 12000

  /** The `limit` argument of one field: not among the arguments, null, a number, or of another type. */
  datatype Arg = Absent | Null | Number(n: int) | OtherType

  // ----- The weights

  function EffectiveLimit(requested: int): (n: nat)
    ensures n <= MAX_MESSAGE_PAGE_SIZE
    ensures requested >= 0 ==> n <= requested
  {
    if requested < 0 then 0
    else if requested > MAX_MESSAGE_PAGE_SIZE then MAX_MESSAGE_PAGE_SIZE
    else requested
  }

  function ListComplexity(childComplexity: nat, n: int): nat {
    (childComplexity + 1) * (if n < 0 then 0 else n)
  }

  function LimitArg(arg: Arg): Option<nat> {
    match arg
    case Absent => None
    case Number(n) => Some(EffectiveLimit(n))
    case Null => Some(UNPAGED_COLLECTION_CAP)
    case OtherType => None
  }

  /** weightedComplexitySchema.Complexity; `custom` is the wrapped schema's own answer. */
  function Weight(custom: Option<nat>, declaresLimit: bool, childComplexity: nat, arg: Arg): Option<nat> {
    if custom.Some? then custom
    else if LimitArg(arg).Some? then Some(ListComplexity(childComplexity, LimitArg(arg).value))
    else if declaresLimit then Some(ListComplexity(childComplexity, UNPAGED_COLLECTION_CAP))
    else None
  }

  // ----- The rows that resolvers ask for

  function ResolveLimit(limit: Option<int>, fallback: int, upper: int): (l: int)
    ensures l <= upper
    ensures limit.Some? && 0 < limit.value <= upper ==> l == limit.value
    ensures limit.Some? && limit.value > upper && limit.value > 0 ==> l == upper
    ensures (limit.None? || limit.value <= 0) && fallback <= upper ==> l == fallback
  {
    var l := if limit.Some? && limit.value > 0 then limit.value else fallback;
    if l > upper then upper else l
  }

  function ResolveOffset(offset: Option<int>): (o: int)
    ensures 0 <= o <= MAX_OFFSET
    ensures offset.Some? && 0 <= offset.value <= MAX_OFFSET ==> o == offset.value
    ensures offset.Some? && offset.value > MAX_OFFSET ==> o == MAX_OFFSET
    ensures offset.None? || offset.value < 0 ==> o == 0
  {
    if offset.None? || offset.value <= 0 then 0
    else if offset.value > MAX_OFFSET then MAX_OFFSET
    else offset.value
  }

  /** resolveUnpagedWindow: limit and offset. */
  function ResolveUnpagedWindow(limit: Option<int>, offset: Option<int>): (window: (int, int))
    ensures limit.Some? && 0 < limit.value <= MAX_PAGE_SIZE ==> window.0 == limit.value
    ensures limit.Some? && limit.value > MAX_PAGE_SIZE ==> window.0 == MAX_PAGE_SIZE
    ensures limit.None? || limit.value <= 0 ==> window.0 == UNPAGED_COLLECTION_CAP
    ensures 0 <= window.1 <= MAX_OFFSET
  {
    (if limit.Some? && limit.value > 0 then ResolveLimit(limit, DEFAULT_PAGE_SIZE, MAX_PAGE_SIZE)
     else UNPAGED_COLLECTION_CAP,
     ResolveOffset(offset))
  }

  /** How a limit-bearing field's resolver bounds its rows. */
  datatype Resolver = Paged(fallback: int, upper: int) | Unpaged {
    /** A page of at least one row, and no larger than the chat history's. */
    predicate Sensible() {
      Paged? ==> fallback >= 1 && 1 <= upper <= MAX_MESSAGE_PAGE_SIZE
    }
  }

  function GoLimit(arg: Arg): Option<int> {
    if arg.Number? then Some(arg.n) else None
  }

  function MaxRows(r: Resolver, arg: Arg): int {
    match r
    case Paged(fallback, upper) => ResolveLimit(GoLimit(arg), fallback, upper)
    case Unpaged => ResolveUnpagedWindow(GoLimit(arg), None).0
  }

  /** The factor by which a limit-bearing field's children are weighted. */
  function Factor(arg: Arg): nat {
    match LimitArg(arg)
    case Some(n) => n
    case None => UNPAGED_COLLECTION_CAP
  }

  /** A limit that is omitted, null or at least 1. */
  predicate ProperLimit(arg: Arg) {
    arg.Number? ==> arg.n >= 1
  }

  /** The weight's factor covers the rows exactly for proper limits, whatever the resolver. */
  lemma FactorCoversRows(r: Resolver, arg: Arg)
    requires r.Sensible()
    ensures 1 <= MaxRows(r, arg)
    ensures MaxRows(r, arg) <= Factor(arg) <==> ProperLimit(arg)
  {
  }

  // ----- Queries

  /** A field and what it returns: one object or scalar, rows, or a page object whose `items` are the rows. */
  datatype Field = Field(shape: Shape, arg: Arg, isItems: bool, children: seq<Field>)

  datatype Shape = One | Rows(resolver: Resolver) | PageOf(resolver: Resolver)

  /** The server's walk over a query. */
  function Cost(f: Field): nat {
    var child := SumCost(f.children);
    match Weight(None, !f.shape.One?, child, if f.shape.One? then Absent else f.arg)
    case Some(w) => if w >= child then w else 1 + child
    case None => 1 + child
  }

  function SumCost(fs: seq<Field>): nat {
    if fs == [] then 0 else Cost(fs[0]) + SumCost(fs[1..])
  }

  /** The field resolutions when every list returns as many rows as its resolver allows. */
  function Resolutions(f: Field): int {
    match f.shape
    case One => 1 + SumResolutions(f.children)
    case Rows(r) => 1 + MaxRows(r, f.arg) * SumResolutions(f.children)
    case PageOf(r) => 1 + PageResolutions(f.children, MaxRows(r, f.arg))
  }

  function SumResolutions(fs: seq<Field>): int {
    if fs == [] then 0 else Resolutions(fs[0]) + SumResolutions(fs[1..])
  }

  /** The children of a page object: `items` holds the rows, the others are resolved once. */
  function PageResolutions(fs: seq<Field>, rows: int): int {
    if fs == [] then 0 else
      (if fs[0].isItems && fs[0].shape.One? then 1 + rows * SumResolutions(fs[0].children) else Resolutions(fs[0]))
      + PageResolutions(fs[1..], rows)
  }

  /** Every resolver in the query is sensible and every limit proper. */
  predicate Proper(f: Field) {
    && (!f.shape.One? ==> f.shape.resolver.Sensible() && ProperLimit(f.arg))
    && ProperAll(f.children)
  }

  predicate ProperAll(fs: seq<Field>) {
    fs == [] || (Proper(fs[0]) && ProperAll(fs[1..]))
  }

  lemma MulMonotone(a: int, b: int, c: int, d: int)
    requires 0 <= a <= c && 0 <= b <= d
    ensures a * b <= c * d
  {
    assert a * b <= c * b <= c * d;
  }

  lemma WeightOfList(child: nat, n: nat)
    requires n >= 1
    ensures ListComplexity(child, n) == child * n + n
    ensures ListComplexity(child, n) >= child
  {
    Distribute(child, n);
    MulMonotone(child, 1, child, n);
  }

  /** A limit-bearing field costs its factor for itself and for its children. */
  lemma CostOfLimited(f: Field)
    requires !f.shape.One? && Factor(f.arg) >= 1
    ensures Cost(f) == SumCost(f.children) * Factor(f.arg) + Factor(f.arg)
  {
    var child, n := SumCost(f.children), Factor(f.arg);
    var weight := Weight(None, true, child, f.arg);
    assert weight == Some(ListComplexity(child, n));
    WeightOfList(child, n);
  }

  /** Rows within the factor, each with children within their cost, fit into the weight. */
  lemma RowsFit(rows: int, n: int, resolutions: int, child: int)
    requires 1 <= rows <= n && 0 <= resolutions <= child
    ensures 0 <= rows * resolutions && 1 + rows * resolutions <= child * n + n
  {
    MulMonotone(rows, resolutions, n, child);
    MulMonotone(0, 0, rows, resolutions);
  }

  lemma UnlimitedCovered(f: Field)
    requires f.shape.One? && 0 <= SumResolutions(f.children) <= SumCost(f.children)
    ensures 1 <= Resolutions(f) <= Cost(f)
  {
  }

  lemma LimitedCovered(f: Field, n: int, rows: int)
    requires !f.shape.One? && n == Factor(f.arg) && rows == MaxRows(f.shape.resolver, f.arg) && 1 <= rows <= n
    requires 0 <= SumResolutions(f.children) <= SumCost(f.children)
    requires 0 <= PageResolutions(f.children, rows) <= SumCost(f.children) * n
    ensures 1 <= Resolutions(f) <= Cost(f)
  {
    var resolutions := Resolutions(f);
    assert f.shape.Rows? ==> resolutions == 1 + rows * SumResolutions(f.children);
    assert f.shape.PageOf? ==> resolutions == 1 + PageResolutions(f.children, rows);
    RowsFit(rows, n, SumResolutions(f.children), SumCost(f.children));
    assert 1 <= resolutions <= SumCost(f.children) * n + n;
    CostOfLimited(f);
  }

  /** The weight of a query is never less than the resolutions it can cause. */
  lemma {:induction false} CostCoversResolutions(f: Field)
    requires Proper(f)
    ensures 1 <= Resolutions(f) <= Cost(f)
    decreases f, 0
  {
    SumCovered(f.children);
    if f.shape.One? {
      UnlimitedCovered(f);
    } else {
      var n, rows := Factor(f.arg), MaxRows(f.shape.resolver, f.arg);
      FactorCoversRows(f.shape.resolver, f.arg);
      PageCovered(f.children, rows, n);
      LimitedCovered(f, n, rows);
    }
  }

  lemma Distribute(a: int, n: int)
    ensures (a + 1) * n == a * n + n
  {
  }

  lemma {:induction false} SumCovered(fs: seq<Field>)
    requires ProperAll(fs)
    ensures 0 <= SumResolutions(fs) <= SumCost(fs)
    decreases fs, 1
  {
    if fs != [] {
      CostCoversResolutions(fs[0]);
      SumCovered(fs[1..]);
    }
  }

  /** A page's `items` field, resolved for every row, is covered by its cost times the factor. */
  lemma ItemsCovered(f: Field, rows: int, n: int)
    requires 1 <= rows <= n && f.shape.One? && 0 <= SumResolutions(f.children) <= SumCost(f.children)
    ensures 1 <= 1 + rows * SumResolutions(f.children) <= Cost(f) * n
  {
    var inner := SumCost(f.children);
    assert Cost(f) == inner + 1;
    Distribute(inner, n);
    RowsFit(rows, n, SumResolutions(f.children), inner);
  }

  lemma SumTimes(head: int, tail: int, n: int)
    ensures (head + tail) * n == head * n + tail * n
  {
  }

  lemma {:induction false} PageCovered(fs: seq<Field>, rows: int, n: int)
    requires ProperAll(fs) && 1 <= rows <= n
    ensures 0 <= PageResolutions(fs, rows) <= SumCost(fs) * n
    decreases fs, 1
  {
    if fs != [] {
      PageCovered(fs[1..], rows, n);
      SumTimes(Cost(fs[0]), SumCost(fs[1..]), n);
      if fs[0].isItems && fs[0].shape.One? {
        SumCovered(fs[0].children);
        ItemsCovered(fs[0], rows, n);
      } else {
        CostCoversResolutions(fs[0]);
        MulMonotone(Cost(fs[0]), 1, Cost(fs[0]), n);
      }
    }
  }

  // ----- Every response

  /** One resolution of a field: the objects it returned. */
  datatype Response = Response(rows: seq<Object>)

  /** One object: the resolutions of its selected children. */
  datatype Object = Object(fields: seq<Response>)

  /** The field resolutions in a response. */
  function Count(r: Response): nat {
    1 + CountRows(r.rows)
  }

  function CountRows(rows: seq<Object>): nat {
    if rows == [] then 0 else CountRow(rows[0].fields) + CountRows(rows[1..])
  }

  function CountRow(row: seq<Response>): nat {
    if row == [] then 0 else Count(row[0]) + CountRow(row[1..])
  }

  /** How many objects the `items` of this field may hold. */
  function ItemsBound(f: Field): int {
    if f.shape.PageOf? then MaxRows(f.shape.resolver, f.arg) else 1
  }

  /** How many objects a field may return; `items` is the bound for the `items` of its parent. */
  function RowBound(items: int, f: Field): int {
    match f.shape
    case One => if f.isItems then items else 1
    case Rows(r) => MaxRows(r, f.arg)
    case PageOf(_) => 1
  }

  /** A response to the query: no resolver returns more than it may, and the children are those selected. */
  predicate Answers(items: int, f: Field, r: Response)
    decreases r
  {
    |r.rows| <= RowBound(items, f) && RowsAnswer(f, r.rows)
  }

  predicate RowsAnswer(f: Field, rows: seq<Object>)
    decreases rows
  {
    rows == [] || (RowAnswers(ItemsBound(f), f.children, rows[0].fields) && RowsAnswer(f, rows[1..]))
  }

  predicate RowAnswers(items: int, fs: seq<Field>, row: seq<Response>)
    decreases row
  {
    && |fs| == |row|
    && (fs == [] || (Answers(items, fs[0], row[0]) && RowAnswers(items, fs[1..], row[1..])))
  }

  /** With one object, `items` are resolved like any other field. */
  lemma {:induction false} OneItem(fs: seq<Field>)
    ensures PageResolutions(fs, 1) == SumResolutions(fs)
  {
    if fs != [] {
      OneItem(fs[1..]);
    }
  }

  /** The resolutions that one object of field `f` may cause. */
  lemma PerObject(f: Field)
    ensures PageResolutions(f.children, ItemsBound(f))
         == if f.shape.PageOf? then PageResolutions(f.children, ItemsBound(f)) else SumResolutions(f.children)
  {
    OneItem(f.children);
  }

  function Allowed(items: int, f: Field): int {
    if f.isItems && f.shape.One? then 1 + items * SumResolutions(f.children) else Resolutions(f)
  }

  lemma AllowedIsPerObject(items: int, f: Field)
    ensures Allowed(items, f) == 1 + RowBound(items, f) * PageResolutions(f.children, ItemsBound(f))
  {
    PerObject(f);
  }

  lemma {:induction false} AnswerWithin(items: int, f: Field, r: Response)
    requires Proper(f) && items >= 1 && Answers(items, f, r)
    ensures Count(r) <= Allowed(items, f)
    decreases r, 0
  {
    RowsWithin(f, r.rows);
    AllowedIsPerObject(items, f);
    ItemsBoundIsPositive(f);
    PageIsNotNegative(f.children, ItemsBound(f));
    MulMonotone(|r.rows|, PageResolutions(f.children, ItemsBound(f)),
                RowBound(items, f), PageResolutions(f.children, ItemsBound(f)));
  }

  lemma ItemsBoundIsPositive(f: Field)
    requires Proper(f)
    ensures ItemsBound(f) >= 1
  {
    if f.shape.PageOf? {
      FactorCoversRows(f.shape.resolver, f.arg);
    }
  }

  lemma PageIsNotNegative(fs: seq<Field>, rows: int)
    requires ProperAll(fs) && rows >= 1
    ensures PageResolutions(fs, rows) >= 0
  {
    PageCovered(fs, rows, rows);
  }

  lemma {:induction false} RowsWithin(f: Field, rows: seq<Object>)
    requires Proper(f) && RowsAnswer(f, rows)
    ensures CountRows(rows) <= |rows| * PageResolutions(f.children, ItemsBound(f))
    decreases rows, 0
  {
    if rows != [] {
      var each := PageResolutions(f.children, ItemsBound(f));
      ItemsBoundIsPositive(f);
      RowWithin(ItemsBound(f), f.children, rows[0].fields);
      RowsWithin(f, rows[1..]);
      SumTimes(1, |rows| - 1, each);
    }
  }

  lemma {:induction false} RowWithin(items: int, fs: seq<Field>, row: seq<Response>)
    requires ProperAll(fs) && items >= 1 && RowAnswers(items, fs, row)
    ensures CountRow(row) <= PageResolutions(fs, items)
    decreases row, 0
  {
    if fs != [] {
      AnswerWithin(items, fs[0], row[0]);
      RowWithin(items, fs[1..], row[1..]);
    }
  }

  /** The weight of a query covers the field resolutions of every response to it. */
  lemma CostCoversEveryResponse(f: Field, r: Response)
    requires Proper(f) && !f.isItems && Answers(1, f, r)
    ensures Count(r) <= Resolutions(f) <= Cost(f)
  {
    AnswerWithin(1, f, r);
    CostCoversResolutions(f);
  }

  // ----- The largest response

  function Largest(items: int, f: Field): Response
    decreases f, 1
  {
    var n := RowBound(items, f);
    Response(Repeated(LargestRow(ItemsBound(f), f.children), if n < 0 then 0 else n))
  }

  function LargestRow(items: int, fs: seq<Field>): seq<Response>
    decreases fs, 0
  {
    if fs == [] then [] else [Largest(items, fs[0])] + LargestRow(items, fs[1..])
  }

  function Repeated(row: seq<Response>, n: nat): (rows: seq<Object>)
    ensures |rows| == n
  {
    if n == 0 then [] else [Object(row)] + Repeated(row, n - 1)
  }

  lemma {:induction false} RepeatedRows(f: Field, row: seq<Response>, n: nat)
    requires RowAnswers(ItemsBound(f), f.children, row)
    ensures RowsAnswer(f, Repeated(row, n)) && CountRows(Repeated(row, n)) == n * CountRow(row)
  {
    if n > 0 {
      RepeatedRows(f, row, n - 1);
      assert Repeated(row, n)[1..] == Repeated(row, n - 1);
      SumTimes(1, n - 1, CountRow(row));
    }
  }

  lemma {:induction false} LargestAnswers(items: int, f: Field)
    requires Proper(f) && items >= 1
    ensures Answers(items, f, Largest(items, f)) && Count(Largest(items, f)) == Allowed(items, f)
    decreases f, 1
  {
    ItemsBoundIsPositive(f);
    LargestRowAnswers(ItemsBound(f), f.children);
    if f.shape.Rows? {
      FactorCoversRows(f.shape.resolver, f.arg);
    }
    RepeatedRows(f, LargestRow(ItemsBound(f), f.children), RowBound(items, f));
    AllowedIsPerObject(items, f);
  }

  lemma {:induction false} LargestRowAnswers(items: int, fs: seq<Field>)
    requires ProperAll(fs) && items >= 1
    ensures RowAnswers(items, fs, LargestRow(items, fs))
    ensures CountRow(LargestRow(items, fs)) == PageResolutions(fs, items)
    decreases fs, 0
  {
    if fs != [] {
      LargestAnswers(items, fs[0]);
      LargestRowAnswers(items, fs[1..]);
      assert LargestRow(items, fs)[1..] == LargestRow(items, fs[1..]);
    }
  }

  /** `Resolutions` counts no more than some response really has. */
  lemma ResolutionsAreReached(f: Field) returns (r: Response)
    requires Proper(f) && !f.isItems
    ensures Answers(1, f, r) && Count(r) == Resolutions(f)
  {
    r := Largest(1, f);
    LargestAnswers(1, f);
  }

  /** A query (its root fields) that the server accepts causes at most COMPLEXITY_LIMIT resolutions. */
  lemma AcceptedQueriesAreBounded(roots: seq<Field>)
    requires ProperAll(roots) && SumCost(roots) <= COMPLEXITY_LIMIT
    ensures SumResolutions(roots) <= COMPLEXITY_LIMIT
  {
    SumCovered(roots);
  }

  /** A limit of 0 is weighted as nothing but resolved as the default page: the bound needs proper limits. */
  lemma ZeroLimitIsUndercounted(leaf: Field)
    requires leaf == Field(One, Absent, false, [])
    ensures var f := Field(Rows(Paged(DEFAULT_PAGE_SIZE, MAX_PAGE_SIZE)), Number(0), false, [leaf]);
            Cost(f) == 2 && Resolutions(f) == 21
  {
    var f := Field(Rows(Paged(DEFAULT_PAGE_SIZE, MAX_PAGE_SIZE)), Number(0), false, [leaf]);
    assert f.children[1..] == [];
    assert SumCost(f.children) == Cost(leaf) == 1 && SumResolutions(f.children) == Resolutions(leaf) == 1;
  }
}
