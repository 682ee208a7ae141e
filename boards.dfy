/** The board collection and its coordinator (trello-clone/src/App.js):
    the updates applied to the sequence of boards, as pure functions, and
    the `App` object that holds the boards and the id of the open board
    and applies those updates to its fields. */
module Boards {
  import opened BoardModel
  import opened Seqs

  /** The direction of `moveBoard`; the code treats any value other than
      "left" as a move to the right. */
  datatype Direction = Left | Right

  /** What an import or a load hands over: an array of boards, or
      anything else the JSON could have held. */
  datatype Imported = BoardArray(boards: seq<Board>) | NotAnArray

  /** `makeBoard`: a board with the given name and id and three empty
      lists "To Do", "In Progress" and "Done", in that order. The list ids
      are the same fixed strings on every board, so they are distinct
      within one board only. */
  function MakeBoard(name: string, id: Id): (b: Board)
    ensures b.id == id && b.name == name
    ensures |b.lists| == 3
    ensures b.lists[0].title == "To Do"
    ensures b.lists[1].title == "In Progress"
    ensures b.lists[2].title == "Done"
    ensures ListIds(b.lists) == ["list-todo", "list-progress", "list-done"]
    ensures Distinct(ListIds(b.lists))
    ensures Flatten(b.lists) == []
  {
    var ls := [
      TaskList("list-todo", "To Do", []),
      TaskList("list-progress", "In Progress", []),
      TaskList("list-done", "Done", [])
    ];
    assert Flatten(ls) == [] by {
      assert Flatten(ls[2..]) == [];
      assert ls[1..][1..] == ls[2..];
    }
    Board(id, name, ls)
  }

  /** The updater of `createBoard`: the empty name changes nothing; any
      other name appends one new board after all existing ones. */
  function CreateBoards(bs: seq<Board>, name: string, freshId: Id): (r: seq<Board>)
    ensures name == "" ==> r == bs
    ensures name != "" ==> |r| == |bs| + 1 && r[..|bs|] == bs
    ensures name != "" ==> r[|bs|] == MakeBoard(name, freshId)
  {
    if name == "" then bs else bs + [MakeBoard(name, freshId)]
  }

  /** The updater of `deleteBoard`: `filter(b => b.id !== id)`. */
  function DeleteBoards(bs: seq<Board>, id: Id): (r: seq<Board>)
    ensures |r| <= |bs|
    decreases |bs|
  {
    if bs == [] then []
    else
      var rest := DeleteBoards(bs[1..], id);
      if bs[0].id == id then rest else [bs[0]] + rest
  }

  /** The delete keeps exactly the boards without the id, each as often
      as it occurred. */
  lemma {:induction false} DeleteBoardsSpec(bs: seq<Board>, id: Id)
    ensures forall b :: b in DeleteBoards(bs, id) <==> b in bs && b.id != id
    ensures forall b :: multiset(DeleteBoards(bs, id))[b] == if b.id == id then 0 else multiset(bs)[b]
    decreases |bs|
  {
    if bs != [] {
      DeleteBoardsSpec(bs[1..], id);
      assert bs == [bs[0]] + bs[1..];
    }
  }

  /** After the delete no board carries the id. */
  lemma DeleteBoardsRemovesId(bs: seq<Board>, id: Id)
    ensures id !in BoardIds(DeleteBoards(bs, id))
  {
    var r := DeleteBoards(bs, id);
    DeleteBoardsSpec(bs, id);
    forall i | 0 <= i < |r| ensures BoardIds(r)[i] != id {
      assert r[i] in r;
    }
  }

  /** Deleting an id that no board carries changes nothing. */
  lemma {:induction false} DeleteBoardsAbsent(bs: seq<Board>, id: Id)
    requires forall i :: 0 <= i < |bs| ==> bs[i].id != id
    ensures DeleteBoards(bs, id) == bs
    decreases |bs|
  {
    if bs != [] {
      DeleteBoardsAbsent(bs[1..], id);
      assert bs == [bs[0]] + bs[1..];
    }
  }

  /** Filtering a concatenation filters each part. */
  lemma {:induction false} DeleteBoardsAppend(a: seq<Board>, b: seq<Board>, id: Id)
    ensures DeleteBoards(a + b, id) == DeleteBoards(a, id) + DeleteBoards(b, id)
    decreases |a|
  {
    if a == [] {
      assert a + b == b;
    } else {
      assert (a + b)[1..] == a[1..] + b;
      DeleteBoardsAppend(a[1..], b, id);
    }
  }

  /** With distinct ids, the id at position `k` occurs nowhere else. */
  lemma DistinctIdElsewhere(bs: seq<Board>, k: nat)
    requires k < |bs|
    requires Distinct(BoardIds(bs))
    ensures forall i :: 0 <= i < |bs| && i != k ==> bs[i].id != bs[k].id
  {
    var ids := BoardIds(bs);
    forall i | 0 <= i < k ensures bs[i].id != bs[k].id {
      assert ids[i] != ids[k];
    }
    forall i | k < i < |bs| ensures bs[i].id != bs[k].id {
      assert ids[k] != ids[i];
    }
  }

  /** Deleting an id that only position `k` carries drops exactly that
      position. */
  lemma {:induction false} DeleteOnlyAt(bs: seq<Board>, k: nat, id: Id)
    requires k < |bs| && bs[k].id == id
    requires forall i :: 0 <= i < |bs| && i != k ==> bs[i].id != id
    ensures DeleteBoards(bs, id) == bs[..k] + bs[k + 1..]
    decreases k
  {
    if k == 0 {
      DeleteBoardsAbsent(bs[1..], id);
      assert bs[..0] + bs[1..] == bs[1..];
    } else {
      var tl := bs[1..];
      forall i | 0 <= i < |tl| && i != k - 1 ensures tl[i].id != id {
        assert tl[i] == bs[i + 1];
      }
      DeleteOnlyAt(tl, k - 1, id);
      assert tl[..k - 1] == bs[1..k] && tl[k..] == bs[k + 1..];
      assert [bs[0]] + bs[1..k] == bs[..k];
    }
  }

  /** Deleting an id that only one board carries removes exactly that
      board and keeps the others in their order. */
  lemma DeleteOneBoard(bs: seq<Board>, k: nat)
    requires k < |bs|
    requires Distinct(BoardIds(bs))
    ensures DeleteBoards(bs, bs[k].id) == bs[..k] + bs[k + 1..]
  {
    DistinctIdElsewhere(bs, k);
    DeleteOnlyAt(bs, k, bs[k].id);
  }

  /** Creating a board under a fresh id and then deleting that id gives
      back the collection as it was. */
  lemma CreateThenDelete(bs: seq<Board>, name: string, freshId: Id)
    requires freshId !in BoardIds(bs)
    ensures DeleteBoards(CreateBoards(bs, name, freshId), freshId) == bs
  {
    forall i | 0 <= i < |bs| ensures bs[i].id != freshId {
      assert BoardIds(bs)[i] == bs[i].id;
    }
    DeleteBoardsAbsent(bs, freshId);
    if name != "" {
      var nb := MakeBoard(name, freshId);
      DeleteBoardsAppend(bs, [nb], freshId);
      assert [nb][1..] == [];
      assert DeleteBoards([nb], freshId) == [];
    }
  }

  /** A board created under a fresh id keeps the board ids distinct. */
  lemma CreateKeepsIdsDistinct(bs: seq<Board>, name: string, freshId: Id)
    requires Distinct(BoardIds(bs)) && freshId !in BoardIds(bs)
    ensures Distinct(BoardIds(CreateBoards(bs, name, freshId)))
  {
    var r := CreateBoards(bs, name, freshId);
    if name != "" {
      forall i, j | 0 <= i < j < |r| ensures BoardIds(r)[i] != BoardIds(r)[j] {
        if j < |bs| {
          assert BoardIds(bs)[i] != BoardIds(bs)[j];
        } else {
          assert BoardIds(bs)[i] == r[i].id;
        }
      }
    }
  }

  /** The updater of `updateBoard`: every board whose id is the updated
      board's id is replaced by it; all others stay, in place. */
  function UpdateBoards(bs: seq<Board>, updated: Board): (r: seq<Board>)
    ensures |r| == |bs|
    ensures forall i :: 0 <= i < |bs| ==> r[i] == if bs[i].id == updated.id then updated else bs[i]
  {
    seq(|bs|, i requires 0 <= i < |bs| => if bs[i].id == updated.id then updated else bs[i])
  }

  /** What an update leaves intact: the ids in their order; the whole
      collection when no board has the id; and the board found under the
      id is the updated one. Updating twice with the same value is
      updating once. */
  lemma UpdateBoardsFacts(bs: seq<Board>, updated: Board)
    ensures BoardIds(UpdateBoards(bs, updated)) == BoardIds(bs)
    ensures updated.id !in BoardIds(bs) ==> UpdateBoards(bs, updated) == bs
    ensures updated.id in BoardIds(bs) ==> FindBoard(UpdateBoards(bs, updated), updated.id) == Some(updated)
    ensures UpdateBoards(UpdateBoards(bs, updated), updated) == UpdateBoards(bs, updated)
  {
    var r := UpdateBoards(bs, updated);
    assert BoardIds(r) == BoardIds(bs);
    if updated.id in BoardIds(bs) {
      var k := BoardIndex(r, updated.id);
      assert r[k] == updated;
    }
  }

  /** The updater of `moveBoard`: the first board with the id trades
      places with its neighbour on the `dir` side; nothing happens when
      no board has the id or that neighbour would be outside the sequence. */
  function MovedBoards(bs: seq<Board>, id: Id, dir: Direction): (r: seq<Board>)
    ensures |r| == |bs| && multiset(r) == multiset(bs)
    ensures multiset(BoardIds(r)) == multiset(BoardIds(bs))
  {
    var idx := BoardIndex(bs, id);
    var swap := if dir == Left then idx - 1 else idx + 1;
    if idx == -1 || swap < 0 || swap >= |bs| then bs
    else
      var r := Swap(bs, idx, swap);
      assert BoardIds(r) == Swap(BoardIds(bs), idx, swap);
      r
  }

  /** `moveBoard` in full: a no-op when the id is missing or the
      neighbour is out of range, otherwise exactly positions `idx` and
      `idx ± 1` exchange their boards and all others stay. */
  lemma MovedBoardsCases(bs: seq<Board>, id: Id, dir: Direction)
    ensures var idx := BoardIndex(bs, id);
      var swap := if dir == Left then idx - 1 else idx + 1;
      var r := MovedBoards(bs, id, dir);
      if idx == -1 || swap < 0 || swap >= |bs| then r == bs
      else
        && r[idx] == bs[swap] && r[swap] == bs[idx]
        && forall k :: 0 <= k < |bs| && k != idx && k != swap ==> r[k] == bs[k]
  {
  }

  /** When the move happens, it is the swap of `idx` with its neighbour. */
  lemma MovedIsSwap(bs: seq<Board>, id: Id, dir: Direction, idx: int, swap: int)
    requires idx == BoardIndex(bs, id) >= 0
    requires swap == (if dir == Left then idx - 1 else idx + 1) && 0 <= swap < |bs|
    ensures MovedBoards(bs, id, dir) == Swap(bs, idx, swap)
  {
  }

  /** After a board moves left from `idx`, it is the first with its id at `idx - 1`. */
  lemma IndexAfterLeft(bs: seq<Board>, id: Id, idx: int)
    requires idx == BoardIndex(bs, id) > 0
    ensures BoardIndex(Swap(bs, idx, idx - 1), id) == idx - 1
  {
    var m := Swap(bs, idx, idx - 1);
    BoardIndexIs(m, id, idx - 1);
  }

  /** After a board moves right from `idx`, it is the first with its id at
      `idx + 1`, provided the board it passed has another id. */
  lemma IndexAfterRight(bs: seq<Board>, id: Id, idx: int)
    requires idx == BoardIndex(bs, id) && 0 <= idx < |bs| - 1
    requires bs[idx + 1].id != id
    ensures BoardIndex(Swap(bs, idx, idx + 1), id) == idx + 1
  {
    var m := Swap(bs, idx, idx + 1);
    BoardIndexIs(m, id, idx + 1);
  }

  /** Moving a board left and then right again restores the collection,
      whenever the board is not already first. */
  lemma MoveLeftThenRight(bs: seq<Board>, id: Id)
    requires BoardIndex(bs, id) > 0
    ensures MovedBoards(MovedBoards(bs, id, Left), id, Right) == bs
  {
    var idx := BoardIndex(bs, id);
    MovedIsSwap(bs, id, Left, idx, idx - 1);
    var m := Swap(bs, idx, idx - 1);
    IndexAfterLeft(bs, id, idx);
    MovedIsSwap(m, id, Right, idx - 1, idx);
    SwapTwice(bs, idx, idx - 1);
    SwapSymmetric(m, idx - 1, idx);
  }

  /** Moving a board right and then left again restores the collection,
      whenever the board is not already last and its right neighbour has
      another id (as it has when ids are distinct). Otherwise the second
      move picks the neighbour, which then carries the first matching id. */
  lemma MoveRightThenLeft(bs: seq<Board>, id: Id)
    requires 0 <= BoardIndex(bs, id) < |bs| - 1
    requires bs[BoardIndex(bs, id) + 1].id != id
    ensures MovedBoards(MovedBoards(bs, id, Right), id, Left) == bs
  {
    var idx := BoardIndex(bs, id);
    MovedIsSwap(bs, id, Right, idx, idx + 1);
    var m := Swap(bs, idx, idx + 1);
    IndexAfterRight(bs, id, idx);
    MovedIsSwap(m, id, Left, idx + 1, idx);
    SwapTwice(bs, idx, idx + 1);
    SwapSymmetric(m, idx + 1, idx);
  }

  /** The `App` component's state: the boards and the id of the open
      board (`null` as `None`). Each method is one of the component's
      handlers; `setBoards(prev => ...)` becomes an assignment of the
      updater's result. Saving to storage after each change is not part
      of this model. */
  class App {
    var boards: seq<Board>
    var currentBoardId: Option<Id>

    /** `useState([])` and `useState(null)`. */
    constructor ()
      ensures boards == [] && currentBoardId == None
    {
      boards := [];
      currentBoardId := None;
    }

    /** The load-once effect: a saved value is taken only if it is an array. */
    method Load(saved: Imported)
      modifies this
      ensures boards == if saved.BoardArray? then saved.boards else old(boards)
      ensures currentBoardId == old(currentBoardId)
    {
      if saved.BoardArray? {
        boards := saved.boards;
      }
    }

    /** `currentBoard`: the first board whose id is the open id, if any. */
    function CurrentBoard(): (r: Option<Board>)
      reads this
      ensures currentBoardId.None? ==> r.None?
      ensures currentBoardId.Some? ==> r == FindBoard(boards, currentBoardId.value)
    {
      if currentBoardId.None? then None else FindBoard(boards, currentBoardId.value)
    }

    /** `openBoard` from the sidebar and the dashboard. */
    method OpenBoard(id: Id)
      modifies this
      ensures currentBoardId == Some(id) && boards == old(boards)
    {
      currentBoardId := Some(id);
    }

    /** `onBack` from the board view. */
    method CloseBoard()
      modifies this
      ensures currentBoardId == None && boards == old(boards)
    {
      currentBoardId := None;
    }

    method CreateBoard(name: string, freshId: Id)
      modifies this
      ensures boards == CreateBoards(old(boards), name, freshId)
      ensures currentBoardId == old(currentBoardId)
    {
      if name == "" {
        return;
      }
      boards := boards + [MakeBoard(name, freshId)];
    }

    method DeleteBoard(id: Id)
      modifies this
      ensures boards == DeleteBoards(old(boards), id)
      ensures currentBoardId == if old(currentBoardId) == Some(id) then None else old(currentBoardId)
    {
      boards := DeleteBoards(boards, id);
      if currentBoardId == Some(id) {
        currentBoardId := None;
      }
    }

    method UpdateBoard(updated: Board)
      modifies this
      ensures boards == UpdateBoards(old(boards), updated)
      ensures currentBoardId == old(currentBoardId)
    {
      boards := UpdateBoards(boards, updated);
    }

    /** `importBoards`: an array replaces every board and closes the open
      board; anything else is rejected (the code alerts) and nothing changes. */
    method ImportBoards(data: Imported) returns (accepted: bool)
      modifies this
      ensures accepted <==> data.BoardArray?
      ensures accepted ==> boards == data.boards && currentBoardId == None
      ensures !accepted ==> boards == old(boards) && currentBoardId == old(currentBoardId)
    {
      if !data.BoardArray? {
        return false;
      }
      boards := data.boards;
      currentBoardId := None;
      return true;
    }

    /** `moveBoard`: find the index, check the neighbour, then swap the
      two slots of a fresh copy of the array. */
    method MoveBoard(boardId: Id, dir: Direction)
      modifies this
      ensures boards == MovedBoards(old(boards), boardId, dir)
      ensures currentBoardId == old(currentBoardId)
    {
      var prev := boards;
      var idx := BoardIndex(prev, boardId);
      if idx == -1 {
        return;
      }
      var swap := if dir == Left then idx - 1 else idx + 1;
      if swap < 0 || swap >= |prev| {
        return;
      }
      var copy := new Board[|prev|](i requires 0 <= i < |prev| => prev[i]);
      assert copy[..] == prev;
      copy[idx], copy[swap] := copy[swap], copy[idx];
      assert copy[..] == prev[idx := prev[swap]][swap := prev[idx]];
      boards := copy[..];
      MovedIsSwap(prev, boardId, dir, idx, swap);
    }
  }
}
