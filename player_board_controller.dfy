/**
 * PlayerBoardController: joining a board by its code, leaving it, listing
 * the caller's boards and showing one of them to its members. The caller is
 * the authenticated user, passed in as `callerId`.
 */
module PlayerBoardController {
  import opened Repository
  import opened Responses

  /** `store`: join the board that carries `code`. The guards run in order:
      validation (422), unknown code (422), the caller already on a board with
      that code (422), a full board (403); past them the caller is attached as
      a player (201). Only the last step changes the store. */
  method Store(db: BoardStore, callerId: UserId, code: Param) returns (res: Response)
    modifies db
    ensures db.boards == old(db.boards)
    ensures !Filled(code) ==> res == Response(422, ValidationFailed) && db.rows == old(db.rows)
    ensures Filled(code) && FirstByCode(db.boards, code.s).None? ==>
              res == Response(422, CodeUnknown) && db.rows == old(db.rows)
    ensures Filled(code) && FirstByCode(db.boards, code.s).Some? ==>
              var b := FirstByCode(db.boards, code.s).value;
              if CodeCount(db.boards, old(db.rows), callerId, code.s) > 0 then
                res == Response(422, AlreadyInBoard) && db.rows == old(db.rows)
              else if MemberCount(old(db.rows), b) >= db.boards[b].capacity then
                res == Response(403, BoardFull) && db.rows == old(db.rows)
              else
                res == Response(201, Joined) && db.rows == old(db.rows) + [Row(b, callerId, Player)]
    // what the guards buy
    ensures res.status == 201 <==> db.rows != old(db.rows)
    ensures res.status == 201 ==>
              var b := FirstByCode(db.boards, code.s).value;
              !IsMember(old(db.rows), b, callerId) && IsMember(db.rows, b, callerId)
              && MemberCount(db.rows, b) == MemberCount(old(db.rows), b) + 1
              && MemberCount(db.rows, b) <= db.boards[b].capacity
    ensures WithinCapacity(db.boards, old(db.rows)) ==> WithinCapacity(db.boards, db.rows)
    ensures PairsUnique(old(db.rows)) ==> PairsUnique(db.rows)
    ensures forall k :: MasterCount(db.rows, k) == MasterCount(old(db.rows), k)
  {
    if !Filled(code) {
      return Response(422, ValidationFailed);
    }
    var found := FirstByCode(db.boards, code.s);
    if found.None? {
      return Response(422, CodeUnknown);
    }
    var b := found.value;
    if CodeCount(db.boards, db.rows, callerId, code.s) > 0 {
      return Response(422, AlreadyInBoard);
    }
    if MemberCount(db.rows, b) >= db.boards[b].capacity {
      return Response(403, BoardFull);
    }
    ghost var before := db.rows;
    AlreadyByCode(db.boards, before, callerId, code.s, b);
    db.Attach(b, callerId, Player);
    res := Response(201, Joined);

    CountAppend(before, Row(b, callerId, Player), b);
    assert Row(b, callerId, Player) in db.rows;
    if WithinCapacity(db.boards, before) {
      AppendKeepsCapacity(db.boards, before, Row(b, callerId, Player));
    }
    if PairsUnique(before) {
      AppendFreshKeepsUnique(before, Row(b, callerId, Player));
    }
    forall k
      ensures MasterCount(db.rows, k) == MasterCount(before, k)
    {
      AppendPlayerKeepsMasters(before, b, callerId, k);
    }
  }

  /** The duplicate guard of `store` is by code: a caller with a row on any
      board carrying `code` is refused, so in particular a caller who already
      has a row on the board the code selects. */
  lemma AlreadyByCode(boards: map<BoardId, Board>, rows: seq<Row>, u: UserId, code: string, b: BoardId)
    requires b in boards && boards[b].code == code
    ensures IsMember(rows, b, u) ==> CodeCount(boards, rows, u, code) > 0
  {
    if IsMember(rows, b, u) {
      var role :| Row(b, u, role) in rows;
      var x := Row(b, u, role);
      assert x in rows && x.userId == u && x.boardId in boards && boards[x.boardId].code == code;
    }
  }

  /** `destroy`: leave board `boardId`. The guards run in order: no such board
      (404), no row for the caller (403), the caller's role is master (403),
      one member or fewer (403); past them every row of the caller on that
      board is detached (200). */
  method Destroy(db: BoardStore, callerId: UserId, boardId: BoardId) returns (res: Response)
    modifies db
    ensures db.boards == old(db.boards)
    ensures boardId !in db.boards ==> res == Response(404, NotFound) && db.rows == old(db.rows)
    ensures boardId in db.boards ==>
              match FirstRole(old(db.rows), boardId, callerId)
              case None => res == Response(403, NotMember) && db.rows == old(db.rows)
              case Some(Master) => res == Response(403, MasterCannotLeave) && db.rows == old(db.rows)
              case Some(Player) =>
                if MemberCount(old(db.rows), boardId) <= 1 then
                  res == Response(403, WouldBecomeEmpty) && db.rows == old(db.rows)
                else
                  res == Response(200, Left) && db.rows == Without(old(db.rows), boardId, callerId)
    // what a successful leave does, and does not do
    ensures res.status == 200 <==> db.rows != old(db.rows)
    ensures res.status == 200 ==> IsMember(old(db.rows), boardId, callerId) && !IsMember(db.rows, boardId, callerId)
    ensures res.status == 200 ==> RosterOf(db.rows, boardId) == DropUser(RosterOf(old(db.rows), boardId), callerId)
    ensures res.status == 200 ==> forall k :: k != boardId ==> RosterOf(db.rows, k) == RosterOf(old(db.rows), k)
    ensures res.status == 200 && PairsUnique(old(db.rows)) ==>
              MemberCount(db.rows, boardId) == MemberCount(old(db.rows), boardId) - 1 >= 1
    ensures WithinCapacity(db.boards, old(db.rows)) ==> WithinCapacity(db.boards, db.rows)
    ensures PairsUnique(old(db.rows)) ==> PairsUnique(db.rows)
    ensures PairsUnique(old(db.rows)) ==> forall k :: MasterCount(db.rows, k) == MasterCount(old(db.rows), k)
  {
    if boardId !in db.boards {
      return Response(404, NotFound);
    }
    var found := FirstRole(db.rows, boardId, callerId);
    if found.None? {
      return Response(403, NotMember);
    }
    if found.value == Master {
      return Response(403, MasterCannotLeave);
    }
    if MemberCount(db.rows, boardId) <= 1 {
      return Response(403, WouldBecomeEmpty);
    }
    ghost var before := db.rows;
    db.Detach(boardId, callerId);
    res := Response(200, Left);

    assert Row(boardId, callerId, Player) in before && Row(boardId, callerId, Player) !in db.rows;
    forall k
      ensures RosterOf(db.rows, k) == if k == boardId then DropUser(RosterOf(before, k), callerId) else RosterOf(before, k)
    {
      RosterWithout(before, boardId, callerId, k);
    }
    if PairsUnique(before) {
      WithoutMemberCount(before, boardId, callerId);
      WithoutKeepsUnique(before, boardId, callerId);
      FirstRoleIsTheRole(before, boardId, callerId);
      forall k
        ensures MasterCount(db.rows, k) == MasterCount(before, k)
      {
        WithoutPlayerKeepsMasters(before, boardId, callerId, k);
      }
    }
    if WithinCapacity(db.boards, before) {
      WithoutKeepsCapacity(db.boards, before, boardId, callerId);
    }
  }

  /** One entry of `index`: the board, its `users_count` and the caller's pivot row. */
  datatype Summary = Summary(id: BoardId, board: Board, usersCount: nat, role: Role)

  /** The entry `index` gives for one of the caller's rows on an existing board. */
  function SummaryOf(boards: map<BoardId, Board>, rows: seq<Row>, x: Row): Summary
    requires x.boardId in boards
  {
    Summary(x.boardId, boards[x.boardId], MemberCount(rows, x.boardId), x.role)
  }

  /** `index`: `$user->boards()->withCount('users')`. One entry per row of the
      caller whose board exists, in the order of those rows, each with its
      member count. */
  function Index(boards: map<BoardId, Board>, rows: seq<Row>, callerId: UserId): (r: seq<Summary>)
    ensures |r| == |RowsOfUser(boards, rows, callerId)|
    ensures forall i :: 0 <= i < |r| ==>
              RowsOfUser(boards, rows, callerId)[i] in RowsOfUser(boards, rows, callerId)
              && r[i] == SummaryOf(boards, rows, RowsOfUser(boards, rows, callerId)[i])
    ensures forall e :: e in r ==>
              e.id in boards && e.board == boards[e.id] && Row(e.id, callerId, e.role) in rows
              && e.usersCount == MemberCount(rows, e.id) && e.usersCount >= 1
    ensures forall b, role :: Row(b, callerId, role) in rows && b in boards ==>
              Summary(b, boards[b], MemberCount(rows, b), role) in r
  {
    var own := RowsOfUser(boards, rows, callerId);
    SummariesSound(boards, rows, callerId, own);
    SummariesComplete(boards, rows, callerId, own);
    Summaries(boards, rows, own)
  }

  /** Each entry for the caller's rows is the caller's own row on an existing
      board, with that board's true, positive member count. */
  lemma SummariesSound(boards: map<BoardId, Board>, rows: seq<Row>, callerId: UserId, own: seq<Row>)
    requires own == RowsOfUser(boards, rows, callerId)
    ensures forall e :: e in Summaries(boards, rows, own) ==>
              e.id in boards && e.board == boards[e.id] && Row(e.id, callerId, e.role) in rows
              && e.usersCount == MemberCount(rows, e.id) && e.usersCount >= 1
  {
    var r := Summaries(boards, rows, own);
    forall e | e in r
      ensures e.id in boards && e.board == boards[e.id] && Row(e.id, callerId, e.role) in rows
              && e.usersCount == MemberCount(rows, e.id) && e.usersCount >= 1
    {
      var i :| 0 <= i < |r| && r[i] == e;
      assert own[i] in own;
      MemberCountPositive(rows, e.id, callerId);
    }
  }

  /** Every row of the caller on an existing board has its entry. */
  lemma SummariesComplete(boards: map<BoardId, Board>, rows: seq<Row>, callerId: UserId, own: seq<Row>)
    requires own == RowsOfUser(boards, rows, callerId)
    ensures forall b, role :: Row(b, callerId, role) in rows && b in boards ==>
              Summary(b, boards[b], MemberCount(rows, b), role) in Summaries(boards, rows, own)
  {
    var r := Summaries(boards, rows, own);
    forall b, role | Row(b, callerId, role) in rows && b in boards
      ensures Summary(b, boards[b], MemberCount(rows, b), role) in r
    {
      var i :| 0 <= i < |own| && own[i] == Row(b, callerId, role);
      assert r[i] == Summary(b, boards[b], MemberCount(rows, b), role);
    }
  }

  /** The entries `index` gives for the caller's rows `own`, in their order. */
  function Summaries(boards: map<BoardId, Board>, rows: seq<Row>, own: seq<Row>): (r: seq<Summary>)
    requires forall x :: x in own ==> x.boardId in boards
    ensures |r| == |own|
    ensures forall i :: 0 <= i < |r| ==> own[i] in own && r[i] == SummaryOf(boards, rows, own[i])
  {
    if own == [] then []
    else
      assert forall x :: x in own[1..] ==> x in own;
      [SummaryOf(boards, rows, own[0])] + Summaries(boards, rows, own[1..])
  }

  /** With one row per pair, `index` lists each board at most once. */
  lemma IndexBoardsDistinct(boards: map<BoardId, Board>, rows: seq<Row>, callerId: UserId)
    requires PairsUnique(rows)
    ensures forall i, j :: 0 <= i < j < |Index(boards, rows, callerId)| ==>
              Index(boards, rows, callerId)[i].id != Index(boards, rows, callerId)[j].id
  {
    RowsOfUserDistinct(boards, rows, callerId);
  }

  /** What `show` returns: the board and its `users`, each with the pivot role. */
  datatype Detail = Detail(id: BoardId, board: Board, users: seq<Member>)

  /** `show`: the board, looked up among the caller's own boards; 404 for a
      missing board and for one the caller has no row on. */
  function Show(boards: map<BoardId, Board>, rows: seq<Row>, callerId: UserId, boardId: BoardId): (r: Result<Detail>)
    ensures r.Ok? <==> boardId in boards && IsMember(rows, boardId, callerId)
    ensures r.Err? ==> r.error == Response(404, NotFound)
    ensures r.Ok? ==>
              r.value.id == boardId && r.value.board == boards[boardId]
              && r.value.users == RosterOf(rows, boardId)
              && |r.value.users| == MemberCount(rows, boardId)
              && exists role :: Member(callerId, role) in r.value.users
  {
    if boardId !in boards || FirstRole(rows, boardId, callerId).None? then
      Err(Response(404, NotFound))
    else
      var role := FirstRole(rows, boardId, callerId).value;
      assert Member(callerId, role) in RosterOf(rows, boardId);
      Ok(Detail(boardId, boards[boardId], RosterOf(rows, boardId)))
  }

  /** The roster `show` lists is in attachment order: a player who joins is
      listed after everyone already there, and can see the board. */
  lemma JoinerListedLast(boards: map<BoardId, Board>, rows: seq<Row>, b: BoardId, u: UserId)
    requires b in boards
    ensures Show(boards, rows + [Row(b, u, Player)], u, b)
         == Ok(Detail(b, boards[b], RosterOf(rows, b) + [Member(u, Player)]))
  {
    RosterAppend(rows, Row(b, u, Player), b);
    assert Row(b, u, Player) in rows + [Row(b, u, Player)];
  }

  /** Every board `index` lists can be shown to the caller, with as many users
      as its `users_count`. */
  lemma IndexedBoardsShow(boards: map<BoardId, Board>, rows: seq<Row>, callerId: UserId, e: Summary)
    requires e in Index(boards, rows, callerId)
    ensures Show(boards, rows, callerId, e.id).Ok?
    ensures |Show(boards, rows, callerId, e.id).value.users| == e.usersCount
  {
    assert Row(e.id, callerId, e.role) in rows;
  }
}
