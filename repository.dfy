/**
 * The persistent state shared by the board controllers: the `boards` table
 * and the `board_user` membership roster, with the queries the controllers
 * run against them (member count, role lookup, lookup by join code) and the
 * row-level changes Eloquent performs (`attach`, `detach`, delete).
 */
module Repository {

  type BoardId = int
  type UserId = int

  datatype Option<T> = None | Some(value: T)

  /** The `role` column of `board_user`: enum('master', 'player'), default 'player'. */
  datatype Role = Master | Player

  /** A row of `boards`. Its id is the key under which the store keeps it.
      Neither the schema nor any code makes `code` unique. */
  datatype Board = Board(name: string, description: string, capacity: int, code: string)

  /** A row of `board_user`. Nothing in the schema makes (boardId, userId) unique. */
  datatype Row = Row(boardId: BoardId, userId: UserId, role: Role)

  /** One entry of a board's `users` relation: the user and the pivot role. */
  datatype Member = Member(userId: UserId, role: Role)

  /** The two tables. The controllers read both and change them only through
      the three methods below, each of which touches the rows it names and no more. */
  class BoardStore {
    var boards: map<BoardId, Board>
    var rows: seq<Row>

    constructor (boards0: map<BoardId, Board>, rows0: seq<Row>)
      ensures boards == boards0 && rows == rows0
    {
      boards := boards0;
      rows := rows0;
    }

    /** `$board->users()->attach($user, ["role" => role])`: one more pivot row, appended. */
    method Attach(b: BoardId, u: UserId, role: Role)
      modifies this
      ensures boards == old(boards)
      ensures rows == old(rows) + [Row(b, u, role)]
    {
      rows := rows + [Row(b, u, role)];
    }

    /** `$board->users()->detach($userId)`: deletes every pivot row of the pair. */
    method Detach(b: BoardId, u: UserId)
      modifies this
      ensures boards == old(boards)
      ensures rows == Without(old(rows), b, u)
    {
      rows := Without(rows, b, u);
    }

    /** Deleting a board together with its pivot rows (the cascade the tests expect). */
    method DeleteBoard(b: BoardId)
      modifies this
      ensures boards == old(boards) - {b}
      ensures rows == RowsNotOn(old(rows), b)
    {
      boards := boards - {b};
      rows := RowsNotOn(rows, b);
    }
  }

  // ---------------------------------------------------------------------------
  // Queries
  // ---------------------------------------------------------------------------

  /** `$board->users`: the members of board `b` with their pivot roles, in the
      order their rows were attached. */
  function RosterOf(rows: seq<Row>, b: BoardId): (r: seq<Member>)
    ensures |r| <= |rows|
    ensures forall u, role :: Member(u, role) in r <==> Row(b, u, role) in rows
  {
    if rows == [] then []
    else
      var rest := RosterOf(rows[1..], b);
      assert forall x :: x in rows <==> x == rows[0] || x in rows[1..];
      if rows[0].boardId == b then [Member(rows[0].userId, rows[0].role)] + rest else rest
  }

  /** `$board->users()->count()` and `withCount('users')`: the rows of board `b`. */
  function MemberCount(rows: seq<Row>, b: BoardId): (n: nat)
    ensures n <= |rows|
    ensures n > 0 <==> exists x :: x in rows && x.boardId == b
  {
    var r := RosterOf(rows, b);
    assert r != [] ==> Row(b, r[0].userId, r[0].role) in rows;
    assert forall x :: x in rows && x.boardId == b ==> Member(x.userId, x.role) in r;
    |r|
  }

  /** The number of `master` entries in a roster. */
  function Masters(s: seq<Member>): nat
  {
    if s == [] then 0 else (if s[0].role == Master then 1 else 0) + Masters(s[1..])
  }

  /** The number of `master` rows of board `b`. */
  function MasterCount(rows: seq<Row>, b: BoardId): nat
  {
    Masters(RosterOf(rows, b))
  }

  /** User `u` has at least one row on board `b`. */
  predicate IsMember(rows: seq<Row>, b: BoardId, u: UserId)
  {
    exists role :: Row(b, u, role) in rows
  }

  /** `$board->users()->where('user_id', $u)->first()` read through its pivot:
      the role on the first row of the pair, or None when there is no such row. */
  function FirstRole(rows: seq<Row>, b: BoardId, u: UserId): (r: Option<Role>)
    ensures r.None? <==> !IsMember(rows, b, u)
    ensures r.Some? ==> Row(b, u, r.value) in rows
  {
    if rows == [] then None
    else if rows[0].boardId == b && rows[0].userId == u then
      assert rows[0] == Row(b, u, rows[0].role);
      Some(rows[0].role)
    else
      var r := FirstRole(rows[1..], b, u);
      assert forall role :: Row(b, u, role) in rows <==> Row(b, u, role) in rows[1..] by {
        assert forall x :: x in rows <==> x == rows[0] || x in rows[1..];
      }
      r
  }

  /** `$user->boards`: the caller's rows whose board exists, in table order. */
  function RowsOfUser(boards: map<BoardId, Board>, rows: seq<Row>, u: UserId): (r: seq<Row>)
    ensures |r| <= |rows|
    ensures forall x :: x in r <==> x in rows && x.userId == u && x.boardId in boards
  {
    if rows == [] then []
    else
      var rest := RowsOfUser(boards, rows[1..], u);
      assert forall x :: x in rows <==> x == rows[0] || x in rows[1..];
      if rows[0].userId == u && rows[0].boardId in boards then [rows[0]] + rest else rest
  }

  /** `$user->boards()->where('code', code)->count()`: the caller's rows whose
      board exists and carries `code`. */
  function CodeCount(boards: map<BoardId, Board>, rows: seq<Row>, u: UserId, code: string): (n: nat)
    ensures n <= |rows|
    ensures n > 0 <==> exists x :: x in rows && x.userId == u && x.boardId in boards && boards[x.boardId].code == code
  {
    if rows == [] then 0
    else
      var rest := CodeCount(boards, rows[1..], u, code);
      assert forall x :: x in rows <==> x == rows[0] || x in rows[1..];
      var x := rows[0];
      (if x.userId == u && x.boardId in boards && boards[x.boardId].code == code then 1 else 0) + rest
  }

  /** A set of ids that holds `w` has a least element. */
  lemma {:induction false} LeastExists(s: set<BoardId>, w: BoardId) returns (m: BoardId)
    requires w in s
    ensures m in s && forall k :: k in s ==> m <= k
    decreases s
  {
    if forall k :: k in s ==> w <= k {
      m := w;
    } else {
      var y :| y in s && y < w;
      m := LeastExists(s - {w}, y);
      assert forall k :: k in s ==> k == w || k in s - {w};
    }
  }

  /** The least id of a set that holds `w`. */
  function Least(s: set<BoardId>, w: BoardId): (m: BoardId)
    requires w in s
    ensures m in s && forall k :: k in s ==> m <= k
  {
    assert exists m :: m in s && forall k :: k in s ==> m <= k by {
      var least := LeastExists(s, w);
    }
    var m :| m in s && forall k :: k in s ==> m <= k; m
  }

  /** `Board::where('code', code)->first()`. Codes are not unique, so "first"
      is read as the board with the least id among those carrying the code. */
  function FirstByCode(boards: map<BoardId, Board>, code: string): (r: Option<BoardId>)
    ensures r.None? <==> forall k :: k in boards ==> boards[k].code != code
    ensures r.Some? ==> r.value in boards && boards[r.value].code == code
    ensures r.Some? ==> forall k :: k in boards && boards[k].code == code ==> r.value <= k
  {
    if exists k :: k in boards && boards[k].code == code then
      var ids := set k | k in boards && boards[k].code == code;
      assert forall k :: k in boards && boards[k].code == code ==> k in ids;
      var w :| w in ids;
      Some(Least(ids, w))
    else
      None
  }

  // ---------------------------------------------------------------------------
  // Row-level changes, as values
  // ---------------------------------------------------------------------------

  /** The rows left after `detach`: every row of the pair (b, u) removed, the
      others kept in order. */
  function Without(rows: seq<Row>, b: BoardId, u: UserId): (r: seq<Row>)
    ensures |r| <= |rows|
    ensures forall x :: x in r <==> x in rows && (x.boardId != b || x.userId != u)
  {
    if rows == [] then []
    else
      var rest := Without(rows[1..], b, u);
      assert forall x :: x in rows <==> x == rows[0] || x in rows[1..];
      if rows[0].boardId == b && rows[0].userId == u then rest else [rows[0]] + rest
  }

  /** The rows left after deleting board `b` with its pivot rows. */
  function RowsNotOn(rows: seq<Row>, b: BoardId): (r: seq<Row>)
    ensures |r| <= |rows|
    ensures forall x :: x in r <==> x in rows && x.boardId != b
  {
    if rows == [] then []
    else
      var rest := RowsNotOn(rows[1..], b);
      assert forall x :: x in rows <==> x == rows[0] || x in rows[1..];
      if rows[0].boardId == b then rest else [rows[0]] + rest
  }

  /** A roster with every entry of user `u` removed. */
  function DropUser(s: seq<Member>, u: UserId): (r: seq<Member>)
    ensures |r| <= |s|
    ensures forall m :: m in r <==> m in s && m.userId != u
  {
    if s == [] then []
    else
      var rest := DropUser(s[1..], u);
      assert forall m :: m in s <==> m == s[0] || m in s[1..];
      if s[0].userId == u then rest else [s[0]] + rest
  }

  // ---------------------------------------------------------------------------
  // Invariants the membership roster is meant to keep
  // ---------------------------------------------------------------------------

  /** At most one row per (board, user) pair. */
  predicate PairsUnique(rows: seq<Row>)
  {
    forall i, j :: 0 <= i < j < |rows| ==> rows[i].boardId != rows[j].boardId || rows[i].userId != rows[j].userId
  }

  /** Every board holds no more members than its capacity. */
  predicate WithinCapacity(boards: map<BoardId, Board>, rows: seq<Row>)
  {
    forall b :: b in boards ==> MemberCount(rows, b) <= boards[b].capacity
  }

  /** No user appears twice in a roster. */
  predicate DistinctUsers(s: seq<Member>)
  {
    forall i, j :: 0 <= i < j < |s| ==> s[i].userId != s[j].userId
  }

  // ---------------------------------------------------------------------------
  // Lemmas about the queries
  // ---------------------------------------------------------------------------

  /** An attached row is listed last in its board's roster and nowhere else. */
  lemma {:induction false} RosterAppend(rows: seq<Row>, x: Row, b: BoardId)
    ensures RosterOf(rows + [x], b)
         == RosterOf(rows, b) + (if x.boardId == b then [Member(x.userId, x.role)] else [])
  {
    if rows != [] {
      assert (rows + [x])[1..] == rows[1..] + [x];
      RosterAppend(rows[1..], x, b);
    }
  }

  /** Attaching a row raises its own board's count by exactly one and no other. */
  lemma CountAppend(rows: seq<Row>, x: Row, b: BoardId)
    ensures MemberCount(rows + [x], b) == MemberCount(rows, b) + (if x.boardId == b then 1 else 0)
  {
    RosterAppend(rows, x, b);
  }

  lemma {:induction false} MastersConcat(s: seq<Member>, t: seq<Member>)
    ensures Masters(s + t) == Masters(s) + Masters(t)
  {
    if s != [] {
      assert (s + t)[0] == s[0] && (s + t)[1..] == s[1..] + t;
      MastersConcat(s[1..], t);
    } else {
      assert s + t == t;
    }
  }

  /** Attaching a `player` row changes no board's number of `master` rows. */
  lemma AppendPlayerKeepsMasters(rows: seq<Row>, b: BoardId, u: UserId, k: BoardId)
    ensures MasterCount(rows + [Row(b, u, Player)], k) == MasterCount(rows, k)
  {
    RosterAppend(rows, Row(b, u, Player), k);
    MastersConcat(RosterOf(rows, k), if b == k then [Member(u, Player)] else []);
  }

  /** Attaching a row to a board that has room keeps every board within capacity. */
  lemma AppendKeepsCapacity(boards: map<BoardId, Board>, rows: seq<Row>, x: Row)
    requires WithinCapacity(boards, rows)
    requires x.boardId in boards && MemberCount(rows, x.boardId) < boards[x.boardId].capacity
    ensures WithinCapacity(boards, rows + [x])
  {
    forall k | k in boards
      ensures MemberCount(rows + [x], k) <= boards[k].capacity
    {
      CountAppend(rows, x, k);
    }
  }

  /** Attaching a row to a board that is already full takes it over capacity. */
  lemma AppendToFullBreaksCapacity(boards: map<BoardId, Board>, rows: seq<Row>, x: Row)
    requires x.boardId in boards && MemberCount(rows, x.boardId) >= boards[x.boardId].capacity
    ensures !WithinCapacity(boards, rows + [x])
    ensures MemberCount(rows + [x], x.boardId) > boards[x.boardId].capacity
  {
    CountAppend(rows, x, x.boardId);
  }

  /** Attaching a row for a pair that has none keeps the pairs unique. */
  lemma AppendFreshKeepsUnique(rows: seq<Row>, x: Row)
    requires PairsUnique(rows)
    requires !IsMember(rows, x.boardId, x.userId)
    ensures PairsUnique(rows + [x])
  {
    var s := rows + [x];
    forall i, j | 0 <= i < j < |s|
      ensures s[i].boardId != s[j].boardId || s[i].userId != s[j].userId
    {
      if j == |rows| {
        assert s[i] in rows && s[i] == Row(s[i].boardId, s[i].userId, s[i].role);
      }
    }
  }

  /** Attaching a row for a pair that already has one duplicates the pair. */
  lemma AppendMemberBreaksUnique(rows: seq<Row>, x: Row)
    requires IsMember(rows, x.boardId, x.userId)
    ensures !PairsUnique(rows + [x])
  {
    var role :| Row(x.boardId, x.userId, role) in rows;
    var i :| 0 <= i < |rows| && rows[i] == Row(x.boardId, x.userId, role);
    assert (rows + [x])[i] == rows[i] && (rows + [x])[|rows|] == x;
  }

  /** A member's row makes the board's count at least one. */
  lemma MemberCountPositive(rows: seq<Row>, b: BoardId, u: UserId)
    requires IsMember(rows, b, u)
    ensures MemberCount(rows, b) >= 1
  {
    var role :| Row(b, u, role) in rows;
    assert Member(u, role) in RosterOf(rows, b);
  }

  /** With unique pairs, the role `first()` reads is the role of every row of the pair. */
  lemma FirstRoleIsTheRole(rows: seq<Row>, b: BoardId, u: UserId)
    requires PairsUnique(rows)
    ensures forall role :: Row(b, u, role) in rows ==> FirstRole(rows, b, u) == Some(role)
  {
    forall role | Row(b, u, role) in rows
      ensures FirstRole(rows, b, u) == Some(role)
    {
      var r := FirstRole(rows, b, u);
      var i :| 0 <= i < |rows| && rows[i] == Row(b, u, role);
      var j :| 0 <= j < |rows| && rows[j] == Row(b, u, r.value);
      assert rows[i].boardId == rows[j].boardId && rows[i].userId == rows[j].userId;
    }
  }

  /** Unique pairs give each roster distinct users. */
  lemma {:induction false} RosterDistinct(rows: seq<Row>, b: BoardId)
    requires PairsUnique(rows)
    ensures DistinctUsers(RosterOf(rows, b))
  {
    if rows != [] {
      UniqueTail(rows);
      RosterDistinct(rows[1..], b);
      var rest := RosterOf(rows[1..], b);
      if rows[0].boardId == b {
        var s := RosterOf(rows, b);
        assert s == [Member(rows[0].userId, rows[0].role)] + rest;
        forall j | 0 < j < |s|
          ensures s[0].userId != s[j].userId
        {
          assert s[j] == rest[j - 1] && s[j] in rest;
          assert Row(b, s[j].userId, s[j].role) in rows[1..];
          var k :| 0 <= k < |rows[1..]| && rows[1..][k] == Row(b, s[j].userId, s[j].role);
          assert rows[k + 1] == rows[1..][k];
        }
      }
    }
  }

  /** Unique pairs give each of a user's rows a different board. */
  lemma {:induction false} RowsOfUserDistinct(boards: map<BoardId, Board>, rows: seq<Row>, u: UserId)
    requires PairsUnique(rows)
    ensures forall i, j :: 0 <= i < j < |RowsOfUser(boards, rows, u)| ==>
              RowsOfUser(boards, rows, u)[i].boardId != RowsOfUser(boards, rows, u)[j].boardId
  {
    if rows != [] {
      UniqueTail(rows);
      RowsOfUserDistinct(boards, rows[1..], u);
      var rest := RowsOfUser(boards, rows[1..], u);
      if rows[0].userId == u && rows[0].boardId in boards {
        var own := RowsOfUser(boards, rows, u);
        assert own == [rows[0]] + rest;
        forall i, j | 0 <= i < j < |own|
          ensures own[i].boardId != own[j].boardId
        {
          assert own[j] == rest[j - 1] && own[j] in rest;
          if i > 0 {
            assert own[i] == rest[i - 1];
          }
        }
      }
    }
  }

  /** The tail of a table with unique pairs has unique pairs, and none of its
      rows shares the head's pair. */
  lemma UniqueTail(rows: seq<Row>)
    requires rows != [] && PairsUnique(rows)
    ensures PairsUnique(rows[1..])
    ensures forall x :: x in rows[1..] ==> x.boardId != rows[0].boardId || x.userId != rows[0].userId
  {
    forall i, j | 0 <= i < j < |rows[1..]|
      ensures rows[1..][i].boardId != rows[1..][j].boardId || rows[1..][i].userId != rows[1..][j].userId
    {
      assert rows[1..][i] == rows[i + 1] && rows[1..][j] == rows[j + 1];
    }
    forall x | x in rows[1..]
      ensures x.boardId != rows[0].boardId || x.userId != rows[0].userId
    {
      var k :| 0 <= k < |rows[1..]| && rows[1..][k] == x;
      assert rows[k + 1] == x;
    }
  }

  /** Removing a user who appears exactly once from a roster shortens it by one. */
  lemma {:induction false} DropPresentDistinct(s: seq<Member>, u: UserId)
    requires DistinctUsers(s)
    requires exists m :: m in s && m.userId == u
    ensures |DropUser(s, u)| == |s| - 1
  {
    if s[0].userId == u {
      assert DropUser(s[1..], u) == s[1..] by {
        DropAbsent(s[1..], u);
      }
    } else {
      var m :| m in s && m.userId == u;
      assert m in s[1..];
      assert DistinctUsers(s[1..]) by {
        forall i, j | 0 <= i < j < |s[1..]|
          ensures s[1..][i].userId != s[1..][j].userId
        {
          assert s[1..][i] == s[i + 1] && s[1..][j] == s[j + 1];
        }
      }
      DropPresentDistinct(s[1..], u);
    }
  }

  /** Removing a user who is absent changes nothing. */
  lemma {:induction false} DropAbsent(s: seq<Member>, u: UserId)
    requires forall i :: 0 <= i < |s| ==> s[i].userId != u
    ensures DropUser(s, u) == s
  {
    if s != [] {
      DropAbsent(s[1..], u);
    }
  }

  /** Removing a user none of whose entries is `master` keeps the masters. */
  lemma {:induction false} DropPlayerKeepsMasters(s: seq<Member>, u: UserId)
    requires Member(u, Master) !in s
    ensures Masters(DropUser(s, u)) == Masters(s)
  {
    if s != [] {
      assert forall m :: m in s[1..] ==> m in s;
      assert Member(u, Master) !in s[1..];
      DropPlayerKeepsMasters(s[1..], u);
    }
  }

  /** `detach` of (b, u) shortens b's roster by u's entries, in order, and leaves
      every other board's roster exactly as it was. */
  lemma {:induction false} RosterWithout(rows: seq<Row>, b: BoardId, u: UserId, k: BoardId)
    ensures RosterOf(Without(rows, b, u), k)
         == if k == b then DropUser(RosterOf(rows, k), u) else RosterOf(rows, k)
  {
    if rows != [] {
      RosterWithout(rows[1..], b, u, k);
      var x := rows[0];
      if !(x.boardId == b && x.userId == u) {
        assert Without(rows, b, u) == [x] + Without(rows[1..], b, u);
        assert ([x] + Without(rows[1..], b, u))[1..] == Without(rows[1..], b, u);
      }
    }
  }

  /** Deleting board b's rows empties its roster and leaves every other roster as it was. */
  lemma {:induction false} RosterNotOn(rows: seq<Row>, b: BoardId, k: BoardId)
    ensures RosterOf(RowsNotOn(rows, b), k) == if k == b then [] else RosterOf(rows, k)
  {
    if rows != [] {
      RosterNotOn(rows[1..], b, k);
      var x := rows[0];
      if x.boardId != b {
        assert ([x] + RowsNotOn(rows[1..], b))[1..] == RowsNotOn(rows[1..], b);
      }
    }
  }

  /** Removing rows keeps the remaining pairs unique. */
  lemma {:induction false} WithoutKeepsUnique(rows: seq<Row>, b: BoardId, u: UserId)
    requires PairsUnique(rows)
    ensures PairsUnique(Without(rows, b, u))
  {
    if rows != [] {
      UniqueTail(rows);
      WithoutKeepsUnique(rows[1..], b, u);
      var x := rows[0];
      var rest := Without(rows[1..], b, u);
      if !(x.boardId == b && x.userId == u) {
        var s := [x] + rest;
        forall i, j | 0 <= i < j < |s|
          ensures s[i].boardId != s[j].boardId || s[i].userId != s[j].userId
        {
          if i == 0 {
            assert s[j] == rest[j - 1] && s[j] in rest && s[j] in rows[1..];
            var k :| 0 <= k < |rows[1..]| && rows[1..][k] == s[j];
            assert rows[k + 1] == s[j];
          } else {
            assert s[i] == rest[i - 1] && s[j] == rest[j - 1];
          }
        }
      }
    }
  }

  /** With unique pairs, detaching a member lowers the board's count by exactly one. */
  lemma WithoutMemberCount(rows: seq<Row>, b: BoardId, u: UserId)
    requires PairsUnique(rows)
    requires IsMember(rows, b, u)
    ensures MemberCount(Without(rows, b, u), b) == MemberCount(rows, b) - 1
  {
    RosterWithout(rows, b, u, b);
    RosterDistinct(rows, b);
    var role :| Row(b, u, role) in rows;
    assert Member(u, role) in RosterOf(rows, b);
    DropPresentDistinct(RosterOf(rows, b), u);
  }

  /** Detaching rows never raises any board's count, so capacity is kept. */
  lemma WithoutKeepsCapacity(boards: map<BoardId, Board>, rows: seq<Row>, b: BoardId, u: UserId)
    requires WithinCapacity(boards, rows)
    ensures WithinCapacity(boards, Without(rows, b, u))
  {
    forall k | k in boards
      ensures MemberCount(Without(rows, b, u), k) <= boards[k].capacity
    {
      RosterWithout(rows, b, u, k);
    }
  }

  /** Detaching a pair none of whose rows is `master` changes no board's masters. */
  lemma WithoutPlayerKeepsMasters(rows: seq<Row>, b: BoardId, u: UserId, k: BoardId)
    requires Row(b, u, Master) !in rows
    ensures MasterCount(Without(rows, b, u), k) == MasterCount(rows, k)
  {
    RosterWithout(rows, b, u, k);
    if k == b {
      assert Member(u, Master) !in RosterOf(rows, k);
      DropPlayerKeepsMasters(RosterOf(rows, k), u);
    }
  }
}
