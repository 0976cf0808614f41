/**
 * BoardPlayerController: the older join action, the one the `/boards/join`
 * route is wired to. It validates the code, takes the first board carrying
 * it and attaches the caller as a player, with no duplicate or capacity check.
 */
module BoardPlayerController {
  import opened Repository
  import opened Responses

  /** `store`: join by code, unguarded. A code that fails `$request->validate`
      gets the validator's 422 when the client asks for JSON (`wantsJson`) and
      a redirect back otherwise. When no board carries a valid code the action
      dereferences a null board; callers must not reach that case. */
  method Store(db: BoardStore, callerId: UserId, code: Param, wantsJson: bool) returns (res: Response, joined: Option<Board>)
    requires Filled(code) ==> FirstByCode(db.boards, code.s).Some?
    modifies db
    ensures db.boards == old(db.boards)
    ensures !Filled(code) ==>
              res == (if wantsJson then Response(422, ValidationFailed) else Response(302, RedirectedBack))
              && joined == None && db.rows == old(db.rows)
    ensures Filled(code) ==>
              var b := FirstByCode(db.boards, code.s).value;
              res == Response(201, BoardReturned) && joined == Some(db.boards[b])
              && db.rows == old(db.rows) + [Row(b, callerId, Player)]
              && MemberCount(db.rows, b) == MemberCount(old(db.rows), b) + 1
    ensures forall k :: MasterCount(db.rows, k) == MasterCount(old(db.rows), k)
  {
    if !Filled(code) {
      res := if wantsJson then Response(422, ValidationFailed) else Response(302, RedirectedBack);
      return res, None;
    }
    var b := FirstByCode(db.boards, code.s).value;
    ghost var before := db.rows;
    db.Attach(b, callerId, Player);
    res, joined := Response(201, BoardReturned), Some(db.boards[b]);

    CountAppend(before, Row(b, callerId, Player), b);
    forall k
      ensures MasterCount(db.rows, k) == MasterCount(before, k)
    {
      AppendPlayerKeepsMasters(before, b, callerId, k);
    }
  }

  /** Unlike the guarded join, this one attaches the caller to a full board:
      the board the code selects ends up over its capacity. */
  lemma UnguardedJoinOverfills(boards: map<BoardId, Board>, rows: seq<Row>, callerId: UserId, code: string)
    requires FirstByCode(boards, code).Some?
    requires var b := FirstByCode(boards, code).value; MemberCount(rows, b) >= boards[b].capacity
    ensures var b := FirstByCode(boards, code).value;
            MemberCount(rows + [Row(b, callerId, Player)], b) > boards[b].capacity
            && !WithinCapacity(boards, rows + [Row(b, callerId, Player)])
  {
    AppendToFullBreaksCapacity(boards, rows, Row(FirstByCode(boards, code).value, callerId, Player));
  }

  /** Unlike the guarded join, this one attaches a caller who already has a row
      on the board: the pair then has two rows. */
  lemma UnguardedJoinDuplicates(boards: map<BoardId, Board>, rows: seq<Row>, callerId: UserId, code: string)
    requires FirstByCode(boards, code).Some?
    requires IsMember(rows, FirstByCode(boards, code).value, callerId)
    ensures !PairsUnique(rows + [Row(FirstByCode(boards, code).value, callerId, Player)])
  {
    AppendMemberBreaksUnique(rows, Row(FirstByCode(boards, code).value, callerId, Player));
  }

  /** A state of the kind the feature tests build: a board of capacity 2 with
      its master and one player. A third user joining through this action
      takes it to three members; the master joining again gives the master a
      second row. */
  lemma FullBoardExample()
    ensures var boards := map[1 := Board("Test Board", "This is a test board.", 2, "ABCDEFGHIJ")];
            var rows := [Row(1, 10, Master), Row(1, 11, Player)];
            FirstByCode(boards, "ABCDEFGHIJ") == Some(1)
            && MemberCount(rows + [Row(1, 12, Player)], 1) == 3
            && !WithinCapacity(boards, rows + [Row(1, 12, Player)])
            && !PairsUnique(rows + [Row(1, 10, Player)])
  {
    var boards := map[1 := Board("Test Board", "This is a test board.", 2, "ABCDEFGHIJ")];
    var rows := [Row(1, 10, Master), Row(1, 11, Player)];
    assert Member(10, Master) in RosterOf(rows, 1) && Member(11, Player) in RosterOf(rows, 1);
    assert MemberCount(rows, 1) == 2;
    assert 1 in boards && boards[1].code == "ABCDEFGHIJ";
    UnguardedJoinOverfills(boards, rows, 12, "ABCDEFGHIJ");
    assert Row(1, 10, Master) in rows;
    UnguardedJoinDuplicates(boards, rows, 10, "ABCDEFGHIJ");
  }
}
