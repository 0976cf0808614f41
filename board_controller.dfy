/**
 * BoardController: fetching a board by id, unscoped, and the role gate on
 * deleting one. Neither action, as written, changes anything.
 */
module BoardController {
  import opened Repository
  import opened Responses
  import PlayerBoardController

  /** `show`: the board with that id, whoever asks (route-model binding gives
      404 for a missing id). */
  function Show(boards: map<BoardId, Board>, boardId: BoardId): (r: Result<Board>)
    ensures r.Ok? <==> boardId in boards
    ensures r.Ok? ==> r.value == boards[boardId]
    ensures r.Err? ==> r.error == Response(404, NotFound)
  {
    if boardId in boards then Ok(boards[boardId]) else Err(Response(404, NotFound))
  }

  /** This `show` is not scoped to members: a user with no row on a board gets
      it here and a 404 from the scoped `show`; a member gets the same board
      from both. */
  lemma ShowIsUnscoped(boards: map<BoardId, Board>, rows: seq<Row>, callerId: UserId, boardId: BoardId)
    requires boardId in boards
    ensures Show(boards, boardId) == Ok(boards[boardId])
    ensures !IsMember(rows, boardId, callerId) <==>
              PlayerBoardController.Show(boards, rows, callerId, boardId) == Err(Response(404, NotFound))
    ensures IsMember(rows, boardId, callerId) ==>
              PlayerBoardController.Show(boards, rows, callerId, boardId).value.board == Show(boards, boardId).value
  {
  }

  /** `destroy`, as written: 404 for a missing board; the caller's first row on
      the board is read, and a caller with none makes the action read a
      property of null (a server error); a non-master gets 403; for a master
      the action ends without a response body and without deleting anything. */
  function Destroy(boards: map<BoardId, Board>, rows: seq<Row>, callerId: UserId, boardId: BoardId): (r: Response)
    ensures r == Response(404, NotFound) <==> boardId !in boards
    ensures r == Response(500, NullMembership) <==> boardId in boards && !IsMember(rows, boardId, callerId)
    ensures r == Response(403, PlayerCannotDelete) <==>
              boardId in boards && FirstRole(rows, boardId, callerId) == Some(Player)
    ensures r == Response(200, EmptyBody) <==>
              boardId in boards && FirstRole(rows, boardId, callerId) == Some(Master)
  {
    if boardId !in boards then Response(404, NotFound)
    else
      match FirstRole(rows, boardId, callerId)
      case None => Response(500, NullMembership)
      case Some(Player) => Response(403, PlayerCannotDelete)
      case Some(Master) => Response(200, EmptyBody)
  }

  /** With one row per pair, a player on the board is refused deletion. */
  lemma PlayerCannotDestroy(boards: map<BoardId, Board>, rows: seq<Row>, callerId: UserId, boardId: BoardId)
    requires PairsUnique(rows)
    requires boardId in boards && Row(boardId, callerId, Player) in rows
    ensures Destroy(boards, rows, callerId, boardId) == Response(403, PlayerCannotDelete)
  {
    FirstRoleIsTheRole(rows, boardId, callerId);
  }

  /** As written, a master's "successful" delete leaves the board and its rows
      where they were, while the feature tests expect both gone. */
  lemma MasterDestroyKeepsBoard(boards: map<BoardId, Board>, rows: seq<Row>, callerId: UserId, boardId: BoardId)
    requires Destroy(boards, rows, callerId, boardId).status == 200
    ensures boardId in boards && IsMember(rows, boardId, callerId) && MemberCount(rows, boardId) >= 1
  {
    MemberCountPositive(rows, boardId, callerId);
  }

  /** `destroy` as the feature tests expect it: 404 for a missing board, 403
      for a caller without a master row (no row at all included), and for a
      master the board and every row on it are deleted (200). */
  method DestroyCascading(db: BoardStore, callerId: UserId, boardId: BoardId) returns (res: Response)
    modifies db
    ensures boardId !in old(db.boards) ==>
              res == Response(404, NotFound) && db.boards == old(db.boards) && db.rows == old(db.rows)
    ensures boardId in old(db.boards) && FirstRole(old(db.rows), boardId, callerId) != Some(Master) ==>
              res == Response(403, PlayerCannotDelete) && db.boards == old(db.boards) && db.rows == old(db.rows)
    ensures boardId in old(db.boards) && FirstRole(old(db.rows), boardId, callerId) == Some(Master) ==>
              res == Response(200, Deleted)
              && db.boards == old(db.boards) - {boardId}
              && db.rows == RowsNotOn(old(db.rows), boardId)
    ensures res.status == 200 ==>
              (forall x :: x in db.rows ==> x.boardId != boardId)
              && (forall k :: k != boardId ==> RosterOf(db.rows, k) == RosterOf(old(db.rows), k))
    ensures res.status != 200 ==> db.boards == old(db.boards) && db.rows == old(db.rows)
    ensures WithinCapacity(old(db.boards), old(db.rows)) ==> WithinCapacity(db.boards, db.rows)
  {
    if boardId !in db.boards {
      return Response(404, NotFound);
    }
    if FirstRole(db.rows, boardId, callerId) != Some(Master) {
      return Response(403, PlayerCannotDelete);
    }
    ghost var boards0, rows0 := db.boards, db.rows;
    db.DeleteBoard(boardId);
    res := Response(200, Deleted);

    forall k
      ensures RosterOf(db.rows, k) == if k == boardId then [] else RosterOf(rows0, k)
    {
      RosterNotOn(rows0, boardId, k);
    }
    if WithinCapacity(boards0, rows0) {
      assert forall k :: k in db.boards ==> k in boards0 && k != boardId && db.boards[k] == boards0[k];
    }
  }
}
