/**
 * The progress service over the user_progress table: an insert-or-update
 * keyed by (user, module, week, day) and the per-user query ordered by
 * week and day. The table is a map from the unique key to the remaining
 * columns, so it holds at most one row per key by construction.
 */
module ProgressService {
  import opened Wrappers
  import opened Progress
  import Maps

  /** The columns of the table's unique key `unique_user_lesson`. */
  datatype LessonKey = LessonKey(userId: string, moduleName: string, week: int, day: int)

  /** The remaining columns of a row. */
  datatype ProgressRow = ProgressRow(
    topic: string,
    lessonCompleted: bool,
    quizScore: Option<int>,
    timeSpent: Option<int>,
    completedAt: Option<Timestamp>)

  type Table = map<LessonKey, ProgressRow>

  /** The body of a progress update. */
  datatype UserProgressRequest = UserProgressRequest(
    userId: string,
    moduleName: string,
    week: int,
    day: int,
    lessonCompleted: bool,
    quizScore: Option<int>,
    timeSpent: Option<int>)

  datatype SuccessResponse = SuccessResponse(status: string, message: string)

  function KeyOf(req: UserProgressRequest): LessonKey {
    LessonKey(req.userId, req.moduleName, req.week, req.day)
  }

  /**
   * `INSERT ... ON DUPLICATE KEY UPDATE`: a new key gets a row with an empty
   * topic; an existing key keeps its topic and has the other four columns
   * replaced; `completed_at` is the current time exactly for a completed lesson.
   */
  function Upsert(t: Table, req: UserProgressRequest, now: Timestamp): (r: Table)
    ensures r.Keys == t.Keys + {KeyOf(req)}
    ensures |r| == if KeyOf(req) in t then |t| else |t| + 1
    ensures forall k :: k in t && k != KeyOf(req) ==> r[k] == t[k]
    ensures KeyOf(req) !in t ==> r[KeyOf(req)].topic == ""
    ensures KeyOf(req) in t ==> r[KeyOf(req)].topic == t[KeyOf(req)].topic
    ensures r[KeyOf(req)].lessonCompleted == req.lessonCompleted
    ensures r[KeyOf(req)].quizScore == req.quizScore && r[KeyOf(req)].timeSpent == req.timeSpent
    ensures r[KeyOf(req)].completedAt == Some(now) <==> req.lessonCompleted
    ensures !req.lessonCompleted ==> r[KeyOf(req)].completedAt == None
  {
    var k := KeyOf(req);
    var topic := if k in t then t[k].topic else "";
    var completedAt := if req.lessonCompleted then Some(now) else None;
    var r := t[k := ProgressRow(topic, req.lessonCompleted, req.quizScore, req.timeSpent, completedAt)];
    assert k !in t ==> |r.Keys| == |t.Keys + {k}| == |t.Keys| + 1;
    r
  }

  /** Sending the same update twice (at the same moment) leaves the table as sending it once. */
  lemma UpsertIdempotent(t: Table, req: UserProgressRequest, now: Timestamp)
    ensures Upsert(Upsert(t, req, now), req, now) == Upsert(t, req, now)
  {
    var once := Upsert(t, req, now);
    var twice := Upsert(once, req, now);
    assert twice.Keys == once.Keys;
    forall k | k in once ensures twice[k] == once[k] {
    }
  }

  // ---------------------------------------------------------------------
  // The query

  /** A row as `SELECT *` returns it. */
  function ToRecord(k: LessonKey, row: ProgressRow): ProgressRecord {
    ProgressRecord(k.userId, k.moduleName, k.week, k.day, row.topic,
      row.lessonCompleted, row.quizScore, row.timeSpent, row.completedAt)
  }

  function RecordKey(r: ProgressRecord): LessonKey {
    LessonKey(r.userId, r.moduleName, r.week, r.day)
  }

  /** `ORDER BY week, day` on keys. */
  predicate KeyLe(a: LessonKey, b: LessonKey) {
    a.week < b.week || (a.week == b.week && a.day <= b.day)
  }

  /** `ORDER BY week, day` on returned records. */
  predicate WeekDayLe(a: ProgressRecord, b: ProgressRecord) {
    KeyLe(RecordKey(a), RecordKey(b))
  }

  predicate SortedByWeekDay(rs: seq<ProgressRecord>) {
    forall i, j :: 0 <= i < j < |rs| ==> WeekDayLe(rs[i], rs[j])
  }

  /** The rows of a table, as records. */
  ghost function RecordsOf(t: Table): set<ProgressRecord> {
    set k | k in t :: ToRecord(k, t[k])
  }

  /** k is a key of t with the least (week, day). */
  predicate IsMinKey(t: Table, k: LessonKey) {
    k in t && forall j :: j in t ==> KeyLe(k, j)
  }

  lemma {:induction false} MinKeyExists(t: Table)
    requires t != map[]
    ensures exists k :: IsMinKey(t, k)
    decreases |t|
  {
    var k0 :| k0 in t;
    var rest := t - {k0};
    if rest == map[] {
      forall j | j in t ensures KeyLe(k0, j) {
        assert j !in rest;
      }
      assert IsMinKey(t, k0);
    } else {
      Maps.RemoveShrinks(t, k0);
      MinKeyExists(rest);
      var m :| IsMinKey(rest, m);
      if KeyLe(k0, m) {
        forall j | j in t ensures KeyLe(k0, j) {
          if j != k0 {
            assert j in rest;
          }
        }
        assert IsMinKey(t, k0);
      } else {
        forall j | j in t ensures KeyLe(m, j) {
          if j != k0 {
            assert j in rest;
          }
        }
        assert IsMinKey(t, m);
      }
    }
  }

  /** Taking the row with key k out of the table takes exactly its record out of the records. */
  lemma RecordsOfRemove(t: Table, k: LessonKey)
    requires k in t
    ensures RecordsOf(t) == RecordsOf(t - {k}) + {ToRecord(k, t[k])}
    ensures ToRecord(k, t[k]) !in RecordsOf(t - {k})
  {
    var rest := t - {k};
    var head := ToRecord(k, t[k]);
    forall x | x in RecordsOf(t) ensures x in RecordsOf(rest) + {head} {
      var j :| j in t && ToRecord(j, t[j]) == x;
      if j != k {
        assert j in rest && ToRecord(j, rest[j]) == x;
      }
    }
    forall x | x in RecordsOf(rest) ensures x in RecordsOf(t) {
      var j :| j in rest && ToRecord(j, rest[j]) == x;
      assert j in t && ToRecord(j, t[j]) == x;
    }
  }

  /**
   * The table's records in `ORDER BY week, day` order. Rows with the same week
   * and day may come in any order, as in SQL: the row taken first among them
   * is an arbitrary one.
   */
  ghost function Ordered(t: Table): (rs: seq<ProgressRecord>)
    ensures SortedByWeekDay(rs)
    ensures multiset(rs) == multiset(RecordsOf(t))
    decreases |t|
  {
    if t == map[] then
      assert RecordsOf(t) == {};
      []
    else
      MinKeyExists(t);
      var k :| IsMinKey(t, k);
      Maps.RemoveShrinks(t, k);
      var rest := t - {k};
      var tail := Ordered(rest);
      var head := ToRecord(k, t[k]);
      MinHeadFirst(t, k, tail);
      ConsSorted(head, tail);
      ConsRecords(t, k, tail);
      [head] + tail
  }

  /** The row of least (week, day) may precede every record of the others. */
  lemma MinHeadFirst(t: Table, k: LessonKey, tail: seq<ProgressRecord>)
    requires IsMinKey(t, k)
    requires multiset(tail) == multiset(RecordsOf(t - {k}))
    ensures forall x :: x in tail ==> WeekDayLe(ToRecord(k, t[k]), x)
  {
    var rest := t - {k};
    forall x | x in tail ensures WeekDayLe(ToRecord(k, t[k]), x) {
      assert x in multiset(tail);
      assert x in RecordsOf(rest);
      var j :| j in rest && ToRecord(j, rest[j]) == x;
      assert j in t;
    }
  }

  lemma ConsSorted(head: ProgressRecord, tail: seq<ProgressRecord>)
    requires SortedByWeekDay(tail)
    requires forall x :: x in tail ==> WeekDayLe(head, x)
    ensures SortedByWeekDay([head] + tail)
  {
    var rs := [head] + tail;
    forall i, j | 0 <= i < j < |rs| ensures WeekDayLe(rs[i], rs[j]) {
      assert rs[j] == tail[j - 1];
      if i > 0 {
        assert rs[i] == tail[i - 1];
      }
    }
  }

  lemma ConsRecords(t: Table, k: LessonKey, tail: seq<ProgressRecord>)
    requires k in t
    requires multiset(tail) == multiset(RecordsOf(t - {k}))
    ensures multiset([ToRecord(k, t[k])] + tail) == multiset(RecordsOf(t))
  {
    var head := ToRecord(k, t[k]);
    RecordsOfRemove(t, k);
    assert multiset([head] + tail) == multiset{head} + multiset(tail);
    assert multiset(RecordsOf(t)) == multiset(RecordsOf(t - {k})) + multiset{head};
  }

  /** The rows of one user. */
  function UserRows(t: Table, userId: string): (r: Table)
    ensures forall k :: k in r <==> k in t && k.userId == userId
    ensures forall k :: k in r ==> r[k] == t[k]
  {
    map k | k in t && k.userId == userId :: t[k]
  }

  /** The records a query for this user must return, each once. */
  ghost function UserRecords(t: Table, userId: string): set<ProgressRecord> {
    set k | k in t && k.userId == userId :: ToRecord(k, t[k])
  }

  /**
   * `get_user_progress`: exactly the user's rows, each once, ordered by week
   * and then day.
   */
  ghost function GetUserProgress(t: Table, userId: string): (progress: seq<ProgressRecord>)
    ensures SortedByWeekDay(progress)
    ensures multiset(progress) == multiset(UserRecords(t, userId))
    ensures forall r :: r in progress ==> r.userId == userId && RecordKey(r) in t
  {
    var rows := UserRows(t, userId);
    assert RecordsOf(rows) == UserRecords(t, userId);
    var progress := Ordered(rows);
    assert forall r :: r in progress ==> r in UserRecords(t, userId) by {
      forall r | r in progress ensures r in UserRecords(t, userId) {
        assert r in multiset(progress);
      }
    }
    progress
  }

  /** After an update, the user's query returns the row just written. */
  lemma UpdateIsVisible(t: Table, req: UserProgressRequest, now: Timestamp)
    ensures var t' := Upsert(t, req, now);
      ToRecord(KeyOf(req), t'[KeyOf(req)]) in GetUserProgress(t', req.userId)
  {
    var t' := Upsert(t, req, now);
    var r := ToRecord(KeyOf(req), t'[KeyOf(req)]);
    assert r in UserRecords(t', req.userId);
    assert r in multiset(GetUserProgress(t', req.userId));
  }

  /** An update leaves every other user's query result as it was. */
  lemma UpdateKeepsOtherUsers(t: Table, req: UserProgressRequest, now: Timestamp, other: string)
    requires other != req.userId
    ensures UserRecords(Upsert(t, req, now), other) == UserRecords(t, other)
  {
  }

  class ProgressStore {
    var table: Table

    constructor ()
      ensures table == map[]
    {
      table := map[];
    }

    /** `update_user_progress` with a working connection; `now` is the server's clock. */
    method UpdateUserProgress(req: UserProgressRequest, now: Timestamp) returns (resp: SuccessResponse)
      modifies this
      ensures table == Upsert(old(table), req, now)
      ensures resp == SuccessResponse("success", "Progress updated")
    {
      table := Upsert(table, req, now);
      resp := SuccessResponse("success", "Progress updated");
    }
  }
}
