/**
  Pages of answers, one question at a time and for many questions at once
  (infra/mysql/answer_repository.go).

  Both queries order a question's answers by likes (most first), creation time and id. The single
  one cuts its page with LIMIT/OFFSET out of the sorted rows; the batched one keeps the rows whose
  ROW_NUMBER within their question falls into the page, and a loop deals them out to the questions.
 */
module AnswerPages {
  import Sequences

  datatype Answer = Answer(id: int, questionID: int, body: string, createdAt: int)

  datatype Like = Like(answerID: int, userID: int)

  /** The tables read; `id` is the primary key of answers. */
  datatype Db = Db(answers: seq<Answer>, likes: seq<Like>) {
    ghost predicate Keyed() {
      forall i, j :: 0 <= i < j < |answers| ==> answers[i].id != answers[j].id
    }
  }

  /** AnswerWithLikes. */
  datatype Item = Item(answer: Answer, likeCount: nat, myLikeCount: nat)

  datatype Page = Page(items: seq<Item>, total: nat)

  datatype PageQuery = PageQuery(limit: nat, offset: nat, withTotal: bool)

  // ----- The joined and grouped rows

  /** COUNT(al.id) over the likes joined to one answer. */
  function LikesOf(likes: seq<Like>, answerID: int): nat {
    if likes == [] then 0 else
      var n := |likes| - 1;
      LikesOf(likes[..n], answerID) + if likes[n].answerID == answerID then 1 else 0
  }

  /** SUM over the same rows of those by the viewer. */
  function LikesBy(likes: seq<Like>, answerID: int, userID: int): nat {
    if likes == [] then 0 else
      var n := |likes| - 1;
      LikesBy(likes[..n], answerID, userID) + if likes[n] == Like(answerID, userID) then 1 else 0
  }

  function ItemOf(db: Db, viewer: int, a: Answer): Item {
    Item(a, LikesOf(db.likes, a.id), LikesBy(db.likes, a.id, viewer))
  }

  /** The grouped rows of one question, in table order. */
  function RowsOf(db: Db, viewer: int, questionID: int, n: nat): seq<Item>
    requires n <= |db.answers|
  {
    if n == 0 then [] else
      RowsOf(db, viewer, questionID, n - 1)
      + if db.answers[n - 1].questionID == questionID then [ItemOf(db, viewer, db.answers[n - 1])] else []
  }

  // ----- The order

  /** ORDER BY like_count DESC, created_at ASC, id ASC. */
  predicate Before(x: Item, y: Item) {
    || x.likeCount > y.likeCount
    || (x.likeCount == y.likeCount && x.answer.createdAt < y.answer.createdAt)
    || (x.likeCount == y.likeCount && x.answer.createdAt == y.answer.createdAt && x.answer.id < y.answer.id)
  }

  ghost predicate DistinctIds(s: seq<Item>) {
    forall i, j :: 0 <= i < j < |s| ==> s[i].answer.id != s[j].answer.id
  }

  ghost predicate Sorted(s: seq<Item>) {
    forall i, j :: 0 <= i < j < |s| ==> Before(s[i], s[j])
  }

  /** On rows of different ids the order is strict and total, so a sort has no freedom. */
  lemma BeforeIsStrictTotalOrder(x: Item, y: Item, z: Item)
    ensures !Before(x, x)
    ensures x.answer.id != y.answer.id ==> Before(x, y) != Before(y, x)
    ensures Before(x, y) && Before(y, z) ==> Before(x, z)
  {
  }

  function Insert(s: seq<Item>, x: Item): (r: seq<Item>)
    ensures multiset(r) == multiset(s) + multiset{x}
  {
    if s == [] then [x]
    else if Before(x, s[0]) then [x] + s
    else
      assert s == [s[0]] + s[1..];
      [s[0]] + Insert(s[1..], x)
  }

  /** The rows in query order. */
  function Sort(s: seq<Item>): (r: seq<Item>)
    ensures multiset(r) == multiset(s)
  {
    if s == [] then [] else
      assert s == [s[0]] + s[1..];
      Insert(Sort(s[1..]), s[0])
  }

  lemma MembersOfMultisets(a: seq<Item>, b: seq<Item>)
    requires multiset(a) == multiset(b)
    ensures |a| == |b| && forall x :: x in a <==> x in b
  {
    forall x
      ensures x in a <==> x in b
    {
      assert x in a <==> x in multiset(a);
    }
    assert |multiset(a)| == |a|;
  }

  lemma {:induction false} InsertSorts(s: seq<Item>, x: Item)
    requires Sorted(s) && forall y :: y in s ==> y.answer.id != x.answer.id
    ensures Sorted(Insert(s, x))
  {
    if s != [] {
      BeforeIsStrictTotalOrder(x, s[0], s[0]);
      if Before(x, s[0]) {
        forall i | 0 <= i < |s|
          ensures Before(x, s[i])
        {
          BeforeIsStrictTotalOrder(x, s[0], s[i]);
        }
      } else {
        InsertSorts(s[1..], x);
        var r := Insert(s[1..], x);
        forall i | 0 <= i < |r|
          ensures Before(s[0], r[i])
        {
          assert r[i] in multiset(s[1..]) + multiset{x};
        }
      }
    }
  }

  lemma {:induction false} SortSorts(s: seq<Item>)
    requires DistinctIds(s)
    ensures Sorted(Sort(s))
  {
    if s != [] {
      SortSorts(s[1..]);
      MembersOfMultisets(Sort(s[1..]), s[1..]);
      InsertSorts(Sort(s[1..]), s[0]);
    }
  }

  // ----- One question: LIMIT and OFFSET

  function Min(a: nat, b: nat): nat {
    if a < b then a else b
  }

  /** LIMIT `limit` OFFSET `offset`. */
  function Window(s: seq<Item>, limit: nat, offset: nat): seq<Item> {
    s[Min(offset, |s|)..Min(offset + limit, |s|)]
  }

  /** ListAnswersWithLikesByQuestionID. */
  function SinglePage(db: Db, viewer: int, questionID: int, limit: nat, offset: nat): seq<Item> {
    Window(Sort(RowsOf(db, viewer, questionID, |db.answers|)), limit, offset)
  }

  /** CountAnswersByQuestionID. */
  function SingleCount(db: Db, questionID: int): nat {
    |set i | 0 <= i < |db.answers| && db.answers[i].questionID == questionID|
  }

  // ----- Many questions: ROW_NUMBER

  ghost function QuestionRows(db: Db, viewer: int, questionID: int): set<Item> {
    set a | a in db.answers && a.questionID == questionID :: ItemOf(db, viewer, a)
  }

  /** ROW_NUMBER() OVER (PARTITION BY question ORDER BY ...): one more than the rows before it in its question. */
  ghost function RowNumber(db: Db, viewer: int, x: Item): nat {
    1 + |set y | y in QuestionRows(db, viewer, x.answer.questionID) && Before(y, x)|
  }

  /** `rows` answers the batched page query: the rows asked for, each once, by question and row number. */
  ghost predicate AnswersPageQuery(db: Db, viewer: int, questionIDs: seq<int>, q: PageQuery, rows: seq<Item>) {
    && (forall x :: x in rows <==>
          && x.answer.questionID in questionIDs && x in QuestionRows(db, viewer, x.answer.questionID)
          && q.offset < RowNumber(db, viewer, x) <= q.offset + q.limit)
    && ByQuestionAndNumber(db, viewer, rows)
  }

  /** ORDER BY question_id, rn. */
  ghost predicate ByQuestionAndNumber(db: Db, viewer: int, rows: seq<Item>) {
    forall i, j :: 0 <= i < j < |rows| ==> EarlierRow(db, viewer, rows[i], rows[j])
  }

  ghost predicate EarlierRow(db: Db, viewer: int, x: Item, y: Item) {
    || x.answer.questionID < y.answer.questionID
    || (x.answer.questionID == y.answer.questionID && RowNumber(db, viewer, x) < RowNumber(db, viewer, y))
  }

  datatype CountRow = CountRow(questionID: int, count: nat)

  /** `rows` answers the GROUP BY count: one row for each listed question that has answers. */
  ghost predicate AnswersCountQuery(db: Db, questionIDs: seq<int>, rows: seq<CountRow>) {
    forall c :: c in rows <==>
      c.questionID in questionIDs && c.count == SingleCount(db, c.questionID) && c.count > 0
  }

  /** The rows dealt to one question. */
  function OfQuestion(rows: seq<Item>, questionID: int): seq<Item> {
    if rows == [] then [] else
      OfQuestion(rows[..|rows| - 1], questionID)
      + if rows[|rows| - 1].answer.questionID == questionID then [rows[|rows| - 1]] else []
  }

  // ----- The two agree

  lemma {:induction false} RowsAreTheQuestion(db: Db, viewer: int, questionID: int, n: nat)
    requires n <= |db.answers|
    ensures forall x :: x in RowsOf(db, viewer, questionID, n) <==>
              x.answer in db.answers[..n] && x.answer.questionID == questionID && x == ItemOf(db, viewer, x.answer)
    ensures db.Keyed() ==> DistinctIds(RowsOf(db, viewer, questionID, n))
  {
    if n > 0 {
      RowsAreTheQuestion(db, viewer, questionID, n - 1);
      var a := db.answers[n - 1];
      assert db.answers[..n] == db.answers[..n - 1] + [a];
      var before := RowsOf(db, viewer, questionID, n - 1);
      if db.Keyed() {
        forall i | 0 <= i < |before|
          ensures before[i].answer.id != a.id
        {
          assert before[i] in before;
        }
      }
    }
  }

  /** All rows of a question in query order. */
  function Ordered(db: Db, viewer: int, questionID: int): seq<Item> {
    Sort(RowsOf(db, viewer, questionID, |db.answers|))
  }

  lemma OrderedIsTheQuestion(db: Db, viewer: int, questionID: int)
    requires db.Keyed()
    ensures Sorted(Ordered(db, viewer, questionID))
    ensures forall x :: x in Ordered(db, viewer, questionID) <==> x in QuestionRows(db, viewer, questionID)
    ensures forall x :: x in Ordered(db, viewer, questionID) ==> x.answer.questionID == questionID
  {
    var rows := RowsOf(db, viewer, questionID, |db.answers|);
    RowsAreTheQuestion(db, viewer, questionID, |db.answers|);
    assert db.answers[..|db.answers|] == db.answers;
    SortSorts(rows);
    MembersOfMultisets(Ordered(db, viewer, questionID), rows);
  }

  ghost function Members(s: seq<Item>): set<Item> {
    set y | y in s
  }

  lemma {:induction false} PrefixSize(s: seq<Item>, k: nat)
    requires Sorted(s) && k <= |s|
    ensures |Members(s[..k])| == k
  {
    if k > 0 {
      PrefixSize(s, k - 1);
      assert s[..k] == s[..k - 1] + [s[k - 1]];
      var earlier := s[..k - 1];
      forall x | x in earlier
        ensures x != s[k - 1]
      {
        var i :| 0 <= i < k - 1 && s[i] == x;
        assert Before(s[i], s[k - 1]);
        BeforeIsStrictTotalOrder(x, x, x);
      }
      assert Members(s[..k]) == Members(s[..k - 1]) + {s[k - 1]};
    }
  }

  /** The rows before the k-th of a sorted list are the first k. */
  lemma EarlierRows(s: seq<Item>, k: nat)
    requires Sorted(s) && k < |s|
    ensures (set y | y in s && Before(y, s[k])) == Members(s[..k])
  {
    forall i | 0 <= i < |s|
      ensures Before(s[i], s[k]) <==> i < k
    {
      BeforeIsStrictTotalOrder(s[i], s[k], s[i]);
    }
    forall y | y in s && Before(y, s[k])
      ensures y in s[..k]
    {
      var i :| 0 <= i < |s| && s[i] == y;
      assert s[..k][i] == y;
    }
    forall y | y in s[..k]
      ensures y in s && Before(y, s[k])
    {
      var i :| 0 <= i < k && s[i] == y;
    }
  }

  /** The k-th row in query order has row number k + 1. */
  lemma RowNumberIsPosition(db: Db, viewer: int, questionID: int, k: nat)
    requires db.Keyed() && k < |Ordered(db, viewer, questionID)|
    ensures RowNumber(db, viewer, Ordered(db, viewer, questionID)[k]) == k + 1
  {
    var s := Ordered(db, viewer, questionID);
    OrderedIsTheQuestion(db, viewer, questionID);
    assert s[k] in s;
    EarlierRows(s, k);
    PrefixSize(s, k);
    assert (set y | y in QuestionRows(db, viewer, questionID) && Before(y, s[k])) == Members(s[..k]);
  }

  /** Two sorted listings of the same rows are the same. */
  lemma SortedIsUnique(a: seq<Item>, b: seq<Item>)
    requires Sorted(a) && Sorted(b) && forall x :: x in a <==> x in b
    ensures a == b
  {
    Sequences.SortedIsUnique(Before, a, b);
  }

  lemma {:induction false} DealtRows(rows: seq<Item>, questionID: int)
    ensures forall x :: x in OfQuestion(rows, questionID) <==> x in rows && x.answer.questionID == questionID
  {
    if rows != [] {
      var n := |rows| - 1;
      assert rows == rows[..n] + [rows[n]];
      DealtRows(rows[..n], questionID);
    }
  }

  /** Dealt rows keep the order of the query, which within a question is the order of the pages. */
  lemma {:induction false} DealtInOrder(db: Db, viewer: int, rows: seq<Item>, questionID: int)
    requires db.Keyed()
    requires forall i :: 0 <= i < |rows| ==> rows[i] in QuestionRows(db, viewer, rows[i].answer.questionID)
    requires ByQuestionAndNumber(db, viewer, rows)
    ensures Sorted(OfQuestion(rows, questionID))
  {
    if rows != [] {
      var n := |rows| - 1;
      DealtInOrder(db, viewer, rows[..n], questionID);
      DealtRows(rows[..n], questionID);
      var before, last := OfQuestion(rows[..n], questionID), rows[n];
      if last.answer.questionID == questionID {
        forall k | 0 <= k < |before|
          ensures Before(before[k], last)
        {
          assert before[k] in before;
          var i :| 0 <= i < n && rows[i] == before[k];
          assert EarlierRow(db, viewer, rows[i], rows[n]) && rows[i].answer.questionID == last.answer.questionID;
          LowerNumberIsBefore(db, viewer, rows[i], last);
        }
      }
    }
  }

  lemma LowerNumberIsBefore(db: Db, viewer: int, x: Item, y: Item)
    requires db.Keyed() && x.answer.questionID == y.answer.questionID
    requires x in QuestionRows(db, viewer, x.answer.questionID) && y in QuestionRows(db, viewer, y.answer.questionID)
    requires RowNumber(db, viewer, x) < RowNumber(db, viewer, y)
    ensures Before(x, y)
  {
    var q := x.answer.questionID;
    var s := Ordered(db, viewer, q);
    OrderedIsTheQuestion(db, viewer, q);
    var i :| 0 <= i < |s| && s[i] == x;
    var j :| 0 <= j < |s| && s[j] == y;
    RowNumberIsPosition(db, viewer, q, i);
    RowNumberIsPosition(db, viewer, q, j);
  }

  lemma RowInPage(db: Db, viewer: int, questionID: int, limit: nat, offset: nat, x: Item)
    requires db.Keyed() && x in Ordered(db, viewer, questionID)
    requires offset < RowNumber(db, viewer, x) <= offset + limit
    ensures x in SinglePage(db, viewer, questionID, limit, offset)
  {
    var s := Ordered(db, viewer, questionID);
    var k :| 0 <= k < |s| && s[k] == x;
    RowNumberIsPosition(db, viewer, questionID, k);
    assert SinglePage(db, viewer, questionID, limit, offset)[k - Min(offset, |s|)] == x;
  }

  lemma WindowAt(s: seq<Item>, limit: nat, offset: nat, j: nat)
    requires j < |Window(s, limit, offset)|
    ensures j < limit && offset + j < |s| && Window(s, limit, offset)[j] == s[offset + j]
  {
  }

  lemma OrderedRow(db: Db, viewer: int, questionID: int, k: nat)
    requires db.Keyed() && k < |Ordered(db, viewer, questionID)|
    ensures var x := Ordered(db, viewer, questionID)[k];
            x in QuestionRows(db, viewer, questionID) && x.answer.questionID == questionID
            && RowNumber(db, viewer, x) == k + 1
  {
    assert Ordered(db, viewer, questionID)[k] in Ordered(db, viewer, questionID);
    OrderedIsTheQuestion(db, viewer, questionID);
    RowNumberIsPosition(db, viewer, questionID, k);
  }

  /** The j-th row of a page is the one numbered offset + j + 1. */
  lemma PageRow(db: Db, viewer: int, questionID: int, limit: nat, offset: nat, j: nat)
    requires db.Keyed() && j < |SinglePage(db, viewer, questionID, limit, offset)|
    ensures var x := SinglePage(db, viewer, questionID, limit, offset)[j];
            && x in QuestionRows(db, viewer, questionID) && x.answer.questionID == questionID
            && j < limit && RowNumber(db, viewer, x) == offset + j + 1
  {
    WindowAt(Ordered(db, viewer, questionID), limit, offset, j);
    OrderedRow(db, viewer, questionID, offset + j);
  }

  /** A page holds the rows whose numbers fall into it. */
  lemma PageByRowNumber(db: Db, viewer: int, questionID: int, limit: nat, offset: nat, x: Item)
    requires db.Keyed()
    ensures x in SinglePage(db, viewer, questionID, limit, offset) <==>
              x in QuestionRows(db, viewer, questionID) && x.answer.questionID == questionID
              && offset < RowNumber(db, viewer, x) <= offset + limit
  {
    var page := SinglePage(db, viewer, questionID, limit, offset);
    if x in page {
      var j :| 0 <= j < |page| && page[j] == x;
      PageRow(db, viewer, questionID, limit, offset, j);
    }
    if x in QuestionRows(db, viewer, questionID) && offset < RowNumber(db, viewer, x) <= offset + limit {
      OrderedIsTheQuestion(db, viewer, questionID);
      RowInPage(db, viewer, questionID, limit, offset, x);
    }
  }

  lemma PageIsSorted(db: Db, viewer: int, questionID: int, limit: nat, offset: nat)
    requires db.Keyed()
    ensures Sorted(SinglePage(db, viewer, questionID, limit, offset))
  {
    OrderedIsTheQuestion(db, viewer, questionID);
  }

  /** What the batched query deals to a question is the single question's page. */
  lemma DealtIsSinglePage(db: Db, viewer: int, questionIDs: seq<int>, q: PageQuery, rows: seq<Item>, questionID: int)
    requires db.Keyed() && AnswersPageQuery(db, viewer, questionIDs, q, rows) && questionID in questionIDs
    ensures OfQuestion(rows, questionID) == SinglePage(db, viewer, questionID, q.limit, q.offset)
  {
    forall i | 0 <= i < |rows|
      ensures rows[i] in QuestionRows(db, viewer, rows[i].answer.questionID)
    {
      assert rows[i] in rows;
    }
    DealtInOrder(db, viewer, rows, questionID);
    PageIsSorted(db, viewer, questionID, q.limit, q.offset);
    forall x
      ensures x in SinglePage(db, viewer, questionID, q.limit, q.offset) <==> x in OfQuestion(rows, questionID)
    {
      DealtRows(rows, questionID);
      PageByRowNumber(db, viewer, questionID, q.limit, q.offset, x);
    }
    SortedIsUnique(SinglePage(db, viewer, questionID, q.limit, q.offset), OfQuestion(rows, questionID));
  }

  // ----- The query has an answer

  /** The single pages of the questions, one after the other. */
  function PagesInOrder(db: Db, viewer: int, ids: seq<int>, q: PageQuery): seq<Item> {
    if ids == [] then [] else
      var n := |ids| - 1;
      PagesInOrder(db, viewer, ids[..n], q) + SinglePage(db, viewer, ids[n], q.limit, q.offset)
  }

  ghost predicate Ascending(ids: seq<int>) {
    forall i, j :: 0 <= i < j < |ids| ==> ids[i] < ids[j]
  }

  lemma PageIsByNumber(db: Db, viewer: int, questionID: int, limit: nat, offset: nat)
    requires db.Keyed()
    ensures ByQuestionAndNumber(db, viewer, SinglePage(db, viewer, questionID, limit, offset))
  {
    var page := SinglePage(db, viewer, questionID, limit, offset);
    forall i, j | 0 <= i < j < |page|
      ensures EarlierRow(db, viewer, page[i], page[j])
    {
      PageRow(db, viewer, questionID, limit, offset, i);
      PageRow(db, viewer, questionID, limit, offset, j);
    }
  }

  lemma {:induction false} PagesInOrderMembers(db: Db, viewer: int, ids: seq<int>, q: PageQuery, x: Item)
    requires db.Keyed()
    ensures x in PagesInOrder(db, viewer, ids, q) <==>
              x.answer.questionID in ids && x in QuestionRows(db, viewer, x.answer.questionID)
              && q.offset < RowNumber(db, viewer, x) <= q.offset + q.limit
  {
    if ids != [] {
      var n := |ids| - 1;
      assert ids == ids[..n] + [ids[n]];
      PagesInOrderMembers(db, viewer, ids[..n], q, x);
      PageByRowNumber(db, viewer, ids[n], q.limit, q.offset, x);
    }
  }

  lemma {:induction false} PagesInOrderOrder(db: Db, viewer: int, ids: seq<int>, q: PageQuery)
    requires db.Keyed() && Ascending(ids)
    ensures ByQuestionAndNumber(db, viewer, PagesInOrder(db, viewer, ids, q))
  {
    if ids != [] {
      var n := |ids| - 1;
      var before, page := PagesInOrder(db, viewer, ids[..n], q), SinglePage(db, viewer, ids[n], q.limit, q.offset);
      PagesInOrderOrder(db, viewer, ids[..n], q);
      PageIsByNumber(db, viewer, ids[n], q.limit, q.offset);
      forall i, j | 0 <= i < |before| && 0 <= j < |page|
        ensures EarlierRow(db, viewer, before[i], page[j])
      {
        assert before[i] in before && page[j] in page;
        PagesInOrderMembers(db, viewer, ids[..n], q, before[i]);
        PageByRowNumber(db, viewer, ids[n], q.limit, q.offset, page[j]);
      }
    }
  }

  /** The batched query always has an answer: the single pages, by ascending question. */
  lemma PageQueryHasAnswer(db: Db, viewer: int, questionIDs: seq<int>, ids: seq<int>, q: PageQuery)
    requires db.Keyed() && Ascending(ids) && forall id :: id in ids <==> id in questionIDs
    ensures AnswersPageQuery(db, viewer, questionIDs, q, PagesInOrder(db, viewer, ids, q))
  {
    var rows := PagesInOrder(db, viewer, ids, q);
    PagesInOrderOrder(db, viewer, ids, q);
    forall x
      ensures x in rows <==>
                x.answer.questionID in questionIDs && x in QuestionRows(db, viewer, x.answer.questionID)
                && q.offset < RowNumber(db, viewer, x) <= q.offset + q.limit
    {
      PagesInOrderMembers(db, viewer, ids, q, x);
    }
  }

  // ----- ListAnswerPagesByQuestionIDs

  /** The loop over the page rows: each goes to the page of its question. */
  method DealRows(questionIDs: seq<int>, rows: seq<Item>) returns (result: map<int, Page>)
    requires forall row :: row in rows ==> row.answer.questionID in questionIDs
    ensures forall id :: id in result <==> id in questionIDs
    ensures forall id :: id in result ==> result[id] == Page(OfQuestion(rows, id), 0)
  {
    result := map[];
    for i := 0 to |questionIDs|
      invariant forall id :: id in result <==> id in questionIDs[..i]
      invariant forall id :: id in result ==> result[id] == Page([], 0)
    {
      result := result[questionIDs[i] := Page([], 0)];
    }
    for k := 0 to |rows|
      invariant forall id :: id in result <==> id in questionIDs
      invariant forall id :: id in result ==> result[id] == Page(OfQuestion(rows[..k], id), 0)
    {
      var row := rows[k];
      assert row in rows;
      assert rows[..k + 1][..k] == rows[..k];
      var page := result[row.answer.questionID];
      result := result[row.answer.questionID := page.(items := page.items + [row])];
    }
    assert rows[..|rows|] == rows;
  }

  /** The loop over the count rows; a question without a row keeps its total of 0. */
  method AddTotals(pages: map<int, Page>, db: Db, questionIDs: seq<int>, rows: seq<CountRow>)
    returns (result: map<int, Page>)
    requires AnswersCountQuery(db, questionIDs, rows)
    requires forall id :: id in pages ==> id in questionIDs && pages[id].total == 0
    ensures result.Keys == pages.Keys
    ensures forall id :: id in result ==> result[id] == Page(pages[id].items, SingleCount(db, id))
  {
    result := pages;
    for k := 0 to |rows|
      invariant result.Keys == pages.Keys
      invariant forall id :: id in result ==>
                  && result[id].items == pages[id].items
                  && result[id].total
                     == if CountRow(id, SingleCount(db, id)) in rows[..k] then SingleCount(db, id) else 0
    {
      var c := rows[k];
      assert c in rows && rows[..k + 1] == rows[..k] + [c];
      if c.questionID in result {
        result := result[c.questionID := result[c.questionID].(total := c.count)];
      }
    }
    assert rows[..|rows|] == rows;
  }

  /** `pageRows` and `countRows` are what the database answers to the two queries. */
  method ListAnswerPagesByQuestionIDs(db: Db, viewer: int, questionIDs: seq<int>, q: PageQuery,
                                      pageRows: seq<Item>, countRows: seq<CountRow>)
    returns (result: map<int, Page>)
    requires db.Keyed()
    requires AnswersPageQuery(db, viewer, questionIDs, q, pageRows) && AnswersCountQuery(db, questionIDs, countRows)
    ensures forall id :: id in result <==> id in questionIDs
    ensures forall id :: id in result ==>
              result[id] == Page(SinglePage(db, viewer, id, q.limit, q.offset),
                                 if q.withTotal then SingleCount(db, id) else 0)
  {
    if |questionIDs| == 0 {
      return map[];
    }
    result := DealRows(questionIDs, pageRows);
    forall id | id in questionIDs
      ensures OfQuestion(pageRows, id) == SinglePage(db, viewer, id, q.limit, q.offset)
    {
      DealtIsSinglePage(db, viewer, questionIDs, q, pageRows, id);
    }
    if q.withTotal {
      result := AddTotals(result, db, questionIDs, countRows);
    }
  }

  // ----- What a page shows

  /** The positions of the likes of one answer, or of those by one user. */
  ghost function LikePositions(likes: seq<Like>, answerID: int): set<int> {
    set i | 0 <= i < |likes| && likes[i].answerID == answerID
  }

  ghost function OwnLikePositions(likes: seq<Like>, answerID: int, userID: int): set<int> {
    set i | 0 <= i < |likes| && likes[i] == Like(answerID, userID)
  }

  lemma {:induction false} LikesAreCounted(likes: seq<Like>, answerID: int)
    ensures LikesOf(likes, answerID) == |LikePositions(likes, answerID)|
  {
    if likes != [] {
      var n := |likes| - 1;
      LikesAreCounted(likes[..n], answerID);
      var before, all := LikePositions(likes[..n], answerID), LikePositions(likes, answerID);
      assert all == if likes[n].answerID == answerID then before + {n} else before;
    }
  }

  lemma {:induction false} OwnLikesAreCounted(likes: seq<Like>, answerID: int, userID: int)
    ensures LikesBy(likes, answerID, userID) == |OwnLikePositions(likes, answerID, userID)|
  {
    if likes != [] {
      var n := |likes| - 1;
      OwnLikesAreCounted(likes[..n], answerID, userID);
      var before, all := OwnLikePositions(likes[..n], answerID, userID), OwnLikePositions(likes, answerID, userID);
      assert all == if likes[n] == Like(answerID, userID) then before + {n} else before;
    }
  }

  /** A page shows answers of its question, each with its likes and the viewer's. */
  lemma PageItemsAreCounted(db: Db, viewer: int, questionID: int, limit: nat, offset: nat, j: nat)
    requires db.Keyed() && j < |SinglePage(db, viewer, questionID, limit, offset)|
    ensures var x := SinglePage(db, viewer, questionID, limit, offset)[j];
            && x.answer in db.answers && x.answer.questionID == questionID
            && x.likeCount == |set i | 0 <= i < |db.likes| && db.likes[i].answerID == x.answer.id|
            && x.myLikeCount == |set i | 0 <= i < |db.likes| && db.likes[i] == Like(x.answer.id, viewer)|
  {
    var x := SinglePage(db, viewer, questionID, limit, offset)[j];
    PageRow(db, viewer, questionID, limit, offset, j);
    assert x == ItemOf(db, viewer, x.answer);
    LikesAreCounted(db.likes, x.answer.id);
    OwnLikesAreCounted(db.likes, x.answer.id, viewer);
  }

  /** `x` may stand above `y`: more likes, or as many and not created later, or at the same time with a lower id. */
  predicate Above(x: Item, y: Item) {
    && x.likeCount >= y.likeCount
    && (x.likeCount == y.likeCount ==> x.answer.createdAt <= y.answer.createdAt)
    && (x.likeCount == y.likeCount && x.answer.createdAt == y.answer.createdAt ==> x.answer.id < y.answer.id)
  }

  /** On one page and from page to page likes never rise; equal likes stand by creation time, then by id. */
  lemma PagesDescendByLikes(db: Db, viewer: int, questionID: int, limit: nat, offset: nat, later: nat,
                            i: nat, j: nat)
    requires db.Keyed() && offset + i < later + j
    requires i < |SinglePage(db, viewer, questionID, limit, offset)|
    requires j < |SinglePage(db, viewer, questionID, limit, later)|
    ensures Above(SinglePage(db, viewer, questionID, limit, offset)[i],
                  SinglePage(db, viewer, questionID, limit, later)[j])
  {
    var s := Ordered(db, viewer, questionID);
    WindowAt(s, limit, offset, i);
    WindowAt(s, limit, later, j);
    OrderedIsTheQuestion(db, viewer, questionID);
    assert Before(s[offset + i], s[later + j]);
  }

  /** A page is full unless the answers run out. */
  lemma PageSize(db: Db, viewer: int, questionID: int, limit: nat, offset: nat)
    ensures var n, page := SingleCount(db, questionID), |SinglePage(db, viewer, questionID, limit, offset)|;
            page == if offset >= n then 0 else if n - offset < limit then n - offset else limit
  {
    RowsAreCounted(db, viewer, questionID, |db.answers|);
    var rows := RowsOf(db, viewer, questionID, |db.answers|);
    assert |multiset(Sort(rows))| == |Sort(rows)| && |multiset(rows)| == |rows|;
  }

  lemma {:induction false} RowsAreCounted(db: Db, viewer: int, questionID: int, n: nat)
    requires n <= |db.answers|
    ensures |RowsOf(db, viewer, questionID, n)| == |set i | 0 <= i < n && db.answers[i].questionID == questionID|
  {
    if n > 0 {
      RowsAreCounted(db, viewer, questionID, n - 1);
      var before := set i | 0 <= i < n - 1 && db.answers[i].questionID == questionID;
      var all := set i | 0 <= i < n && db.answers[i].questionID == questionID;
      assert all == before + if db.answers[n - 1].questionID == questionID then {n - 1} else {};
    }
  }

  // ----- Paging through unchanged data

  /** The pages at `offset`, `offset + limit`, ... one after the other, while they hold something. */
  function PagesFrom(s: seq<Item>, limit: nat, offset: nat): seq<Item>
    requires limit > 0
    decreases |s| - offset
  {
    if offset >= |s| then [] else Window(s, limit, offset) + PagesFrom(s, limit, offset + limit)
  }

  lemma {:induction false} PagesAreTheRest(s: seq<Item>, limit: nat, offset: nat)
    requires limit > 0 && offset <= |s|
    ensures PagesFrom(s, limit, offset) == s[offset..]
    decreases |s| - offset
  {
    if offset + limit < |s| {
      PagesAreTheRest(s, limit, offset + limit);
    }
  }

  /** Consecutive pages show every answer of the question exactly once. */
  lemma PagesShowEachAnswerOnce(db: Db, viewer: int, questionID: int, limit: nat)
    requires db.Keyed() && limit > 0
    ensures var all := PagesFrom(Ordered(db, viewer, questionID), limit, 0);
            && Sorted(all)
            && (forall i, j :: 0 <= i < j < |all| ==> all[i] != all[j])
            && forall a :: a in db.answers && a.questionID == questionID <==> ItemOf(db, viewer, a) in all
  {
    var s := Ordered(db, viewer, questionID);
    PagesAreTheRest(s, limit, 0);
    OrderedIsTheQuestion(db, viewer, questionID);
    assert s[0..] == s;
    forall i, j | 0 <= i < j < |s|
      ensures s[i] != s[j]
    {
      assert Before(s[i], s[j]);
      BeforeIsStrictTotalOrder(s[i], s[i], s[i]);
    }
    forall a
      ensures a in db.answers && a.questionID == questionID <==> ItemOf(db, viewer, a) in s
    {
      assert ItemOf(db, viewer, a).answer == a;
    }
  }
}
