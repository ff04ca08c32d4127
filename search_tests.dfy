/**
 * The unit test of src/search.rs: a binary choice tree where state 0 leads to
 * states 1 and 2, state 1 leads to states 3 and 4, and every other state is a
 * leaf, searched for a fixed goal state.
 */
module SearchTests {
  import opened Search

  datatype Direction = Left | Right

  /** States 0 and 1 offer Left then Right; every other state offers nothing. */
  function TreeActions(s: int): seq<Direction>
  {
    if s == 0 || s == 1 then [Left, Right] else []
  }

  /** Any state other than 0 and 1 stays where it is. */
  function TreeNext(s: int, d: Direction): int
  {
    match s
    case 0 => (match d case Left => 1 case Right => 2)
    case 1 => (match d case Left => 3 case Right => 4)
    case _ => s
  }

  function Tree(goal: int): Space<int, Direction>
  {
    Space(TreeActions, TreeNext, s => s == goal)
  }

  /** Depth left below a state: 2 at the root, 1 at state 1, 0 at the leaves. */
  function TreeRank(s: int): nat
  {
    if s == 0 then 2 else if s == 1 then 1 else 0
  }

  lemma TreeRanked(goal: int)
    ensures Ranked(Tree(goal), TreeRank)
  {
  }

  /** The results the unit test expects, for the recursive search. */
  lemma TreeResults()
    ensures Ranked(Tree(0), TreeRank) && Dfs(Tree(0), TreeRank, 0) == Some([])
    ensures Ranked(Tree(1), TreeRank) && Dfs(Tree(1), TreeRank, 0) == Some([Left])
    ensures Ranked(Tree(2), TreeRank) && Dfs(Tree(2), TreeRank, 0) == Some([Right])
    ensures Ranked(Tree(3), TreeRank) && Dfs(Tree(3), TreeRank, 0) == Some([Left, Left])
    ensures Ranked(Tree(4), TreeRank) && Dfs(Tree(4), TreeRank, 0) == Some([Left, Right])
    ensures Ranked(Tree(2), TreeRank) && Dfs(Tree(2), TreeRank, 2) == Some([])
    ensures Ranked(Tree(0), TreeRank) && Dfs(Tree(0), TreeRank, 5) == None
  {
    TreeSearch(0);
    TreeSearch(1);
    TreeSearch(2);
    TreeSearch(3);
    TreeSearch(4);
  }

  /** The recursive search from the root, worked through level by level. */
  lemma TreeSearch(goal: int)
    ensures Ranked(Tree(goal), TreeRank)
    ensures Dfs(Tree(goal), TreeRank, 0) ==
      if goal == 0 then Some([])
      else if goal == 1 then Some([Left])
      else if goal == 3 then Some([Left, Left])
      else if goal == 4 then Some([Left, Right])
      else if goal == 2 then Some([Right])
      else None
  {
    TreeRanked(goal);
    var sp, rank := Tree(goal), TreeRank;
    assert sp.actions(0) == sp.actions(1) == [Left, Right];
    assert [Left] + [] == [Left] && [Right] + [] == [Right];
    assert [Left] + [Left] == [Left, Left] && [Left] + [Right] == [Left, Right];
    assert Dfs(sp, rank, 3) == if goal == 3 then Some([]) else None by {
      assert DfsFrom(sp, rank, 3, 0) == None;
    }
    assert Dfs(sp, rank, 4) == if goal == 4 then Some([]) else None by {
      assert DfsFrom(sp, rank, 4, 0) == None;
    }
    assert Dfs(sp, rank, 2) == if goal == 2 then Some([]) else None by {
      assert DfsFrom(sp, rank, 2, 0) == None;
    }
    assert DfsFrom(sp, rank, 1, 2) == None;
    assert DfsFrom(sp, rank, 0, 2) == None;
    assert DfsFrom(sp, rank, 1, 1) == if goal == 4 then Some([Right]) else None;
    assert DfsFrom(sp, rank, 1, 0) ==
      if goal == 3 then Some([Left]) else if goal == 4 then Some([Right]) else None;
    assert Dfs(sp, rank, 1) ==
      if goal == 1 then Some([]) else if goal == 3 then Some([Left])
      else if goal == 4 then Some([Right]) else None;
    assert DfsFrom(sp, rank, 0, 1) == if goal == 2 then Some([Right]) else None;
    assert DfsFrom(sp, rank, 0, 0) ==
      if goal == 1 then Some([Left]) else if goal == 3 then Some([Left, Left])
      else if goal == 4 then Some([Left, Right]) else if goal == 2 then Some([Right]) else None;
  }

  /** Searches the tree from `start` for `goal`, as the test's `solve` does. */
  method Solve(start: int, goal: int) returns (r: Option<seq<Direction>>)
    ensures Ranked(Tree(goal), TreeRank) && r == Dfs(Tree(goal), TreeRank, start)
  {
    TreeRanked(goal);
    r := DepthFirstSearch(Tree(goal), start, TreeRank);
  }

  method TestDepthFirstSearch()
  {
    TreeResults();
    var r := Solve(0, 0);
    assert r == Some([]);
    r := Solve(0, 1);
    assert r == Some([Left]);
    r := Solve(0, 2);
    assert r == Some([Right]);
    r := Solve(0, 3);
    assert r == Some([Left, Left]);
    r := Solve(0, 4);
    assert r == Some([Left, Right]);
    r := Solve(2, 2);
    assert r == Some([]);
    r := Solve(5, 0);
    assert r == None;
  }
}
