/**
 * A client of the controllers: the join and leave flows of the feature tests,
 * replayed against the contracts alone.
 */
module Scenarios {
  import opened Repository
  import opened Responses
  import PlayerBoardController

  /** The table the scenarios start from: board 1 held by its master (user 1)
      and three players. */
  const Table: seq<Row> := [Row(1, 1, Master), Row(1, 2, Player), Row(1, 3, Player), Row(1, 4, Player)]

  lemma TableRoster()
    ensures RosterOf(Table, 1) == [Member(1, Master), Member(2, Player), Member(3, Player), Member(4, Player)]
  {
    assert Table[1..][1..][1..][1..] == [];
  }

  lemma TableUnique()
    ensures PairsUnique(Table)
  {
  }

  lemma MastersOfFour()
    ensures Masters([Member(1, Master), Member(2, Player), Member(3, Player), Member(4, Player)]) == 1
  {
    var s := [Member(1, Master), Member(2, Player), Member(3, Player), Member(4, Player)];
    assert s[1..][1..][1..][1..] == [];
    assert Masters(s[1..][1..][1..]) == 0;
    assert Masters(s[1..]) == 0;
  }

  lemma TableCounts()
    ensures MemberCount(Table, 1) == 4 && MasterCount(Table, 1) == 1
  {
    TableRoster();
    MastersOfFour();
  }

  lemma TableRoles()
    ensures FirstRole(Table, 1, 1) == Some(Master) && FirstRole(Table, 1, 2) == Some(Player)
  {
    assert Table[1..][0] == Row(1, 2, Player);
  }

  lemma TableUsers()
    ensures forall x :: x in Table ==> x.userId != 5
  {
  }

  lemma TableFacts()
    ensures PairsUnique(Table)
    ensures MemberCount(Table, 1) == 4 && MasterCount(Table, 1) == 1
    ensures FirstRole(Table, 1, 1) == Some(Master) && FirstRole(Table, 1, 2) == Some(Player)
    ensures forall x :: x in Table ==> x.userId != 5
  {
    TableUnique();
    TableCounts();
    TableRoles();
    TableUsers();
  }

  /** The board of the full-board scenario: capacity 4, code "fulltable". */
  const FullBoard: Board := Board("table pleine", "la table est pleine", 4, "fulltable")

  lemma FullBoardCode()
    ensures Filled(Text("fulltable"))
    ensures FirstByCode(map[1 := FullBoard], "fulltable") == Some(1)
  {
    assert !TrimmedAway("fulltable"[0]);
    var boards := map[1 := FullBoard];
    assert 1 in boards && boards[1].code == "fulltable";
  }

  lemma NoRowOfUser5()
    ensures CodeCount(map[1 := FullBoard], Table, 5, "fulltable") == 0
  {
    TableUsers();
  }

  /** Board 1, of capacity 4, is full: a fifth user is refused and the member
      count stays 4. */
  method FullBoardRefusesJoin()
  {
    var db := new BoardStore(map[1 := FullBoard], Table);
    TableCounts();
    FullBoardCode();
    NoRowOfUser5();

    var res := PlayerBoardController.Store(db, 5, Text("fulltable"));
    assert res == Response(403, BoardFull);
    assert MemberCount(db.rows, 1) == 4;
  }

  /** The master's leave is refused and nothing changes. */
  method MasterLeaveRefused()
  {
    var db := new BoardStore(map[1 := Board("Test Board", "This is a test board.", 4, "ABCDEFGHIJ")], Table);
    TableFacts();

    var res := PlayerBoardController.Destroy(db, 1, 1);
    assert res == Response(403, MasterCannotLeave);
    assert db.rows == Table;
  }

  /** A player's leave succeeds, three members remain and the master is still
      the only master. */
  method PlayerLeaves()
  {
    var db := new BoardStore(map[1 := Board("Test Board", "This is a test board.", 4, "ABCDEFGHIJ")], Table);
    TableFacts();

    var res := PlayerBoardController.Destroy(db, 2, 1);
    assert res == Response(200, Left);
    assert MemberCount(db.rows, 1) == 3 && MasterCount(db.rows, 1) == 1;
  }
}
