/**
 * Depth-first search over an abstract search space (src/search.rs).
 *
 * The space is given by three pure queries: the ordered actions offered in a
 * state, the state an action leads to, and the goal test. The engine keeps an
 * explicit stack of frontier entries, each a state with a cursor into its
 * action list, and a parallel path of the actions taken so far.
 *
 * The engine keeps no record of visited states, so it runs forever when its
 * pre-order walk enters a cycle or an infinite chain of actions before it
 * meets a goal. The model asks for a rank that strictly decreases along every
 * offered action (`Ranked`), which rules such walks out, proves the
 * loop equal to a recursive depth-first search (`Dfs`), and proves what that
 * search returns: a path that replays to a goal, "no path" exactly when no
 * offered sequence of actions reaches a goal, and the first such sequence in
 * pre-order.
 */
module Search {

  datatype Option<T> = None | Some(value: T)

  /** The three queries of a search space, as pure functions. */
  datatype Space<!S, !A> = Space(
    actions: S -> seq<A>,
    nextState: (S, A) -> S,
    isGoal: S -> bool
  )

  /**
   * One frontier record: a state, the action list computed for it when it was
   * pushed, and the position of the next action to try (the iterator).
   */
  datatype Entry<S, A> = Entry(state: S, actions: seq<A>, cursor: nat)

  /** Every offered action leads to a state of strictly smaller rank. */
  ghost predicate Ranked<S(!new), A(!new)>(sp: Space<S, A>, rank: S -> nat)
  {
    forall s, a | a in sp.actions(s) :: rank(sp.nextState(s, a)) < rank(s)
  }

  // ---------------------------------------------------------------------------
  // Paths

  /** The state reached from `s` by taking the actions of `p` in order. */
  function Replay<S(!new), A(!new)>(sp: Space<S, A>, s: S, p: seq<A>): S
    decreases |p|
  {
    if |p| == 0 then s else Replay(sp, sp.nextState(s, p[0]), p[1..])
  }

  /** Every action of `p` is offered by the state in which it is taken. */
  ghost predicate ValidPath<S(!new), A(!new)>(sp: Space<S, A>, s: S, p: seq<A>)
  {
    forall j :: 0 <= j < |p| ==> p[j] in sp.actions(Replay(sp, s, p[..j]))
  }

  lemma {:induction false} ReplayAppend<S(!new), A(!new)>(sp: Space<S, A>, s: S, p: seq<A>, a: A)
    ensures Replay(sp, s, p + [a]) == sp.nextState(Replay(sp, s, p), a)
    decreases |p|
  {
    if |p| == 0 {
      assert [] + [a] == [a];
      assert [a][1..] == [];
    } else {
      assert (p + [a])[1..] == p[1..] + [a];
      ReplayAppend(sp, sp.nextState(s, p[0]), p[1..], a);
    }
  }

  lemma ReplayCons<S(!new), A(!new)>(sp: Space<S, A>, s: S, a: A, q: seq<A>)
    ensures Replay(sp, s, [a] + q) == Replay(sp, sp.nextState(s, a), q)
  {
  }

  /** A path starting with `a` is valid exactly when `a` is offered and the rest is valid. */
  lemma ValidPathCons<S(!new), A(!new)>(sp: Space<S, A>, s: S, a: A, q: seq<A>)
    ensures ValidPath(sp, s, [a] + q) <==> a in sp.actions(s) && ValidPath(sp, sp.nextState(s, a), q)
  {
    var p := [a] + q;
    var t := sp.nextState(s, a);
    assert p[..0] == [];
    forall j | 0 <= j < |q|
      ensures p[j + 1] == q[j] && Replay(sp, s, p[..j + 1]) == Replay(sp, t, q[..j])
    {
      assert p[..j + 1] == [a] + q[..j];
      ReplayCons(sp, s, a, q[..j]);
    }
    if ValidPath(sp, s, p) {
      assert p[0] in sp.actions(Replay(sp, s, p[..0]));
      forall j | 0 <= j < |q| ensures q[j] in sp.actions(Replay(sp, t, q[..j])) {
        assert p[j + 1] in sp.actions(Replay(sp, s, p[..j + 1]));
      }
    }
    if a in sp.actions(s) && ValidPath(sp, t, q) {
      forall j | 0 <= j < |p| ensures p[j] in sp.actions(Replay(sp, s, p[..j])) {
        if j > 0 {
          assert q[j - 1] in sp.actions(Replay(sp, t, q[..j - 1]));
        }
      }
    }
  }

  // ---------------------------------------------------------------------------
  // The recursive reference search

  /**
   * Depth-first search from `s`: the empty path if `s` is a goal, otherwise
   * the first action of `sp.actions(s)` whose subtree holds a goal, followed
   * by the path found there.
   */
  function Dfs<S(!new), A(!new)>(sp: Space<S, A>, rank: S -> nat, s: S): Option<seq<A>>
    requires Ranked(sp, rank)
    decreases rank(s), 1, 0
  {
    if sp.isGoal(s) then Some([]) else DfsFrom(sp, rank, s, 0)
  }

  /** Tries the actions of `sp.actions(s)` from position `i` on, in order. */
  function DfsFrom<S(!new), A(!new)>(sp: Space<S, A>, rank: S -> nat, s: S, i: nat): Option<seq<A>>
    requires Ranked(sp, rank)
    decreases rank(s), 0, |sp.actions(s)| - i
  {
    var acts := sp.actions(s);
    if i >= |acts| then None
    else
      assert acts[i] in acts;
      match Dfs(sp, rank, sp.nextState(s, acts[i]))
      case Some(p) => Some([acts[i]] + p)
      case None => DfsFrom(sp, rank, s, i + 1)
  }

  /**
   * A search from position `i` that finds nothing finds nothing under any
   * remaining action.
   */
  lemma {:induction false} DfsFromNone<S(!new), A(!new)>(sp: Space<S, A>, rank: S -> nat, s: S, i: nat, j: nat)
    requires Ranked(sp, rank)
    requires i <= j < |sp.actions(s)|
    requires DfsFrom(sp, rank, s, i) == None
    ensures Dfs(sp, rank, sp.nextState(s, sp.actions(s)[j])) == None
    decreases j - i
  {
    if i < j {
      DfsFromNone(sp, rank, s, i + 1, j);
    }
  }

  /**
   * A search from position `i` that finds a path finds it under some action
   * `j`, after every action between `i` and `j` found nothing.
   */
  lemma {:induction false} DfsFromFirst<S(!new), A(!new)>(sp: Space<S, A>, rank: S -> nat, s: S, i: nat) returns (j: nat)
    requires Ranked(sp, rank)
    requires DfsFrom(sp, rank, s, i).Some?
    ensures i <= j < |sp.actions(s)|
    ensures Dfs(sp, rank, sp.nextState(s, sp.actions(s)[j])).Some?
    ensures DfsFrom(sp, rank, s, i).value
         == [sp.actions(s)[j]] + Dfs(sp, rank, sp.nextState(s, sp.actions(s)[j])).value
    ensures forall k :: i <= k < j ==> Dfs(sp, rank, sp.nextState(s, sp.actions(s)[k])) == None
    decreases |sp.actions(s)| - i
  {
    var acts := sp.actions(s);
    assert acts[i] in acts;
    if Dfs(sp, rank, sp.nextState(s, acts[i])).Some? {
      j := i;
    } else {
      j := DfsFromFirst(sp, rank, s, i + 1);
    }
  }

  /**
   * Soundness: a returned path is made of offered actions, replays to a goal,
   * and no proper prefix of it reaches a goal.
   */
  lemma {:induction false} DfsSound<S(!new), A(!new)>(sp: Space<S, A>, rank: S -> nat, s: S)
    requires Ranked(sp, rank)
    requires Dfs(sp, rank, s).Some?
    ensures ValidPath(sp, s, Dfs(sp, rank, s).value)
    ensures sp.isGoal(Replay(sp, s, Dfs(sp, rank, s).value))
    ensures forall k :: 0 <= k < |Dfs(sp, rank, s).value| ==>
              !sp.isGoal(Replay(sp, s, Dfs(sp, rank, s).value[..k]))
    decreases rank(s)
  {
    var p := Dfs(sp, rank, s).value;
    if !sp.isGoal(s) {
      var acts := sp.actions(s);
      var j := DfsFromFirst(sp, rank, s, 0);
      var a := acts[j];
      var t := sp.nextState(s, a);
      assert a in acts;
      var q := Dfs(sp, rank, t).value;
      DfsSound(sp, rank, t);
      assert p == [a] + q;
      ValidPathCons(sp, s, a, q);
      ReplayCons(sp, s, a, q);
      forall k | 0 <= k < |p| ensures !sp.isGoal(Replay(sp, s, p[..k])) {
        if k > 0 {
          assert p[..k] == [a] + q[..k - 1];
          ReplayCons(sp, s, a, q[..k - 1]);
        }
      }
    }
  }

  /** Completeness: a search that finds nothing leaves no goal reachable by offered actions. */
  lemma {:induction false} DfsNoneNoGoal<S(!new), A(!new)>(sp: Space<S, A>, rank: S -> nat, s: S, p: seq<A>)
    requires Ranked(sp, rank)
    requires Dfs(sp, rank, s) == None
    requires ValidPath(sp, s, p)
    ensures !sp.isGoal(Replay(sp, s, p))
    decreases |p|
  {
    if |p| > 0 {
      var a := p[0];
      var q := p[1..];
      assert p == [a] + q;
      ValidPathCons(sp, s, a, q);
      var acts := sp.actions(s);
      var j :| 0 <= j < |acts| && acts[j] == a;
      DfsFromNone(sp, rank, s, 0, j);
      DfsNoneNoGoal(sp, rank, sp.nextState(s, a), q);
      ReplayCons(sp, s, a, q);
    }
  }

  /** The search finds nothing exactly when no sequence of offered actions reaches a goal. */
  lemma DfsComplete<S(!new), A(!new)>(sp: Space<S, A>, rank: S -> nat, s: S)
    requires Ranked(sp, rank)
    ensures Dfs(sp, rank, s) == None <==>
              forall p :: ValidPath(sp, s, p) ==> !sp.isGoal(Replay(sp, s, p))
  {
    if Dfs(sp, rank, s) == None {
      forall p | ValidPath(sp, s, p) ensures !sp.isGoal(Replay(sp, s, p)) {
        DfsNoneNoGoal(sp, rank, s, p);
      }
    } else {
      DfsSound(sp, rank, s);
    }
  }

  // ---------------------------------------------------------------------------
  // Pre-order: branches are told apart by their positions in the action lists

  /** Each choice `c[j]` is a position in the action list of the state reached so far. */
  ghost predicate ValidChoices<S(!new), A(!new)>(sp: Space<S, A>, s: S, c: seq<nat>)
    decreases |c|
  {
    |c| == 0 ||
    (c[0] < |sp.actions(s)| && ValidChoices(sp, sp.nextState(s, sp.actions(s)[c[0]]), c[1..]))
  }

  /** The actions selected by a sequence of choices. */
  ghost function Walk<S(!new), A(!new)>(sp: Space<S, A>, s: S, c: seq<nat>): seq<A>
    requires ValidChoices(sp, s, c)
    decreases |c|
  {
    if |c| == 0 then []
    else
      var a := sp.actions(s)[c[0]];
      [a] + Walk(sp, sp.nextState(s, a), c[1..])
  }

  /** `d` is visited strictly before `c` by a pre-order walk trying positions in increasing order. */
  ghost predicate Precedes(d: seq<nat>, c: seq<nat>)
    decreases |c|
  {
    |c| > 0 && (|d| == 0 || d[0] < c[0] || (d[0] == c[0] && Precedes(d[1..], c[1..])))
  }

  lemma {:induction false} WalkValid<S(!new), A(!new)>(sp: Space<S, A>, s: S, c: seq<nat>)
    requires ValidChoices(sp, s, c)
    ensures ValidPath(sp, s, Walk(sp, s, c))
    decreases |c|
  {
    if |c| > 0 {
      var a := sp.actions(s)[c[0]];
      WalkValid(sp, sp.nextState(s, a), c[1..]);
      ValidPathCons(sp, s, a, Walk(sp, sp.nextState(s, a), c[1..]));
    }
  }

  /**
   * The returned path is the first goal-reaching branch in pre-order: it is
   * the walk of choices `c` reaching a goal, and no choice sequence visited
   * before `c` reaches a goal.
   */
  lemma {:induction false} DfsFirst<S(!new), A(!new)>(sp: Space<S, A>, rank: S -> nat, s: S) returns (c: seq<nat>)
    requires Ranked(sp, rank)
    requires Dfs(sp, rank, s).Some?
    ensures ValidChoices(sp, s, c)
    ensures Walk(sp, s, c) == Dfs(sp, rank, s).value
    ensures sp.isGoal(Replay(sp, s, Walk(sp, s, c)))
    ensures forall d :: ValidChoices(sp, s, d) && Precedes(d, c) ==>
              !sp.isGoal(Replay(sp, s, Walk(sp, s, d)))
    decreases rank(s)
  {
    DfsSound(sp, rank, s);
    if sp.isGoal(s) {
      c := [];
    } else {
      var acts := sp.actions(s);
      var j := DfsFromFirst(sp, rank, s, 0);
      var t := sp.nextState(s, acts[j]);
      assert acts[j] in acts;
      var c' := DfsFirst(sp, rank, t);
      c := [j] + c';
      assert c[1..] == c';
      forall d | ValidChoices(sp, s, d) && Precedes(d, c)
        ensures !sp.isGoal(Replay(sp, s, Walk(sp, s, d)))
      {
        if |d| > 0 {
          var u := sp.nextState(s, acts[d[0]]);
          ReplayCons(sp, s, acts[d[0]], Walk(sp, u, d[1..]));
          if d[0] < j {
            WalkValid(sp, u, d[1..]);
            DfsNoneNoGoal(sp, rank, u, Walk(sp, u, d[1..]));
          }
        }
      }
    }
  }

  // ---------------------------------------------------------------------------
  // The iterative engine

  /**
   * What the engine will still return from a frontier and path: the top
   * entry's remaining search, prefixed by the path down to it, or, when that
   * finds nothing, what the entry below will return once resumed.
   */
  ghost function Unwind<S(!new), A(!new)>(sp: Space<S, A>, rank: S -> nat, frontier: seq<Entry<S, A>>, path: seq<A>): Option<seq<A>>
    requires Ranked(sp, rank)
    requires |frontier| <= |path| + 1
    decreases |frontier|
  {
    if |frontier| == 0 then None
    else
      var k := |frontier| - 1;
      var top := frontier[k];
      var here := if sp.isGoal(top.state) then Some([]) else DfsFrom(sp, rank, top.state, top.cursor);
      match here
      case Some(p) => Some(path[..k] + p)
      case None => if k == 0 then None else Unwind(sp, rank, frontier[..k], path[..k - 1])
  }

  /** Number of nodes in the tree of action sequences below `s`. */
  ghost function Size<S(!new), A(!new)>(sp: Space<S, A>, rank: S -> nat, s: S): nat
    requires Ranked(sp, rank)
    decreases rank(s), 1, 0
  {
    1 + SizeFrom(sp, rank, s, 0)
  }

  ghost function SizeFrom<S(!new), A(!new)>(sp: Space<S, A>, rank: S -> nat, s: S, i: nat): nat
    requires Ranked(sp, rank)
    decreases rank(s), 0, |sp.actions(s)| - i
  {
    var acts := sp.actions(s);
    if i >= |acts| then 0
    else
      assert acts[i] in acts;
      Size(sp, rank, sp.nextState(s, acts[i])) + SizeFrom(sp, rank, s, i + 1)
  }

  /** The loop's variant: every step of the engine lowers it by one. */
  ghost function Work<S(!new), A(!new)>(sp: Space<S, A>, rank: S -> nat, frontier: seq<Entry<S, A>>): nat
    requires Ranked(sp, rank)
    decreases |frontier|
  {
    if |frontier| == 0 then 0
    else
      var top := frontier[|frontier| - 1];
      Work(sp, rank, frontier[..|frontier| - 1]) + 2 * SizeFrom(sp, rank, top.state, top.cursor) + 1
  }

  /**
   * The frontier after one descent from its top entry: the top entry's cursor
   * moves past the action taken, and an entry for the state it leads to is
   * pushed.
   */
  ghost function Descended<S(!new), A(!new)>(sp: Space<S, A>, frontier: seq<Entry<S, A>>): seq<Entry<S, A>>
    requires |frontier| > 0
    requires frontier[|frontier| - 1].cursor < |sp.actions(frontier[|frontier| - 1].state)|
  {
    var top := frontier[|frontier| - 1];
    var t := sp.nextState(top.state, sp.actions(top.state)[top.cursor]);
    frontier[|frontier| - 1 := top.(cursor := top.cursor + 1)] + [Entry(t, sp.actions(t), 0)]
  }

  /** Descending from a non-goal top entry leaves the outcome unchanged. */
  lemma DescendUnwind<S(!new), A(!new)>(sp: Space<S, A>, rank: S -> nat, frontier: seq<Entry<S, A>>, path: seq<A>, a: A)
    requires Ranked(sp, rank)
    requires |frontier| == |path| + 1
    requires !sp.isGoal(frontier[|path|].state)
    requires frontier[|path|].cursor < |sp.actions(frontier[|path|].state)|
    requires a == sp.actions(frontier[|path|].state)[frontier[|path|].cursor]
    ensures Unwind(sp, rank, Descended(sp, frontier), path + [a]) == Unwind(sp, rank, frontier, path)
  {
    var k := |path|;
    var top := frontier[k];
    var t := sp.nextState(top.state, a);
    var advanced := frontier[k := top.(cursor := top.cursor + 1)];
    var frontier' := Descended(sp, frontier);
    var path' := path + [a];
    assert frontier' == advanced + [Entry(t, sp.actions(t), 0)];
    assert sp.actions(top.state)[top.cursor] in sp.actions(top.state);
    assert Dfs(sp, rank, t) == if sp.isGoal(t) then Some([]) else DfsFrom(sp, rank, t, 0);
    if Dfs(sp, rank, t).Some? {
      var q := Dfs(sp, rank, t).value;
      assert DfsFrom(sp, rank, top.state, top.cursor) == Some([a] + q);
      assert path'[..k + 1] + q == path[..k] + ([a] + q);
    } else {
      assert DfsFrom(sp, rank, top.state, top.cursor) == DfsFrom(sp, rank, top.state, top.cursor + 1);
      assert frontier'[..k + 1] == advanced;
      assert path'[..k] == path;
      assert advanced[..k] == frontier[..k];
    }
  }

  /** Descending lowers the variant by one. */
  lemma DescendWork<S(!new), A(!new)>(sp: Space<S, A>, rank: S -> nat, frontier: seq<Entry<S, A>>)
    requires Ranked(sp, rank)
    requires |frontier| > 0
    requires frontier[|frontier| - 1].cursor < |sp.actions(frontier[|frontier| - 1].state)|
    ensures Work(sp, rank, Descended(sp, frontier)) < Work(sp, rank, frontier)
  {
    var k := |frontier| - 1;
    var top := frontier[k];
    var t := sp.nextState(top.state, sp.actions(top.state)[top.cursor]);
    var advanced := frontier[k := top.(cursor := top.cursor + 1)];
    var frontier' := Descended(sp, frontier);
    assert frontier'[..k + 1] == advanced;
    assert advanced[..k] == frontier[..k];
    assert Work(sp, rank, frontier') == Work(sp, rank, advanced) + 2 * SizeFrom(sp, rank, t, 0) + 1;
    assert Work(sp, rank, advanced) == Work(sp, rank, frontier[..k]) + 2 * SizeFrom(sp, rank, top.state, top.cursor + 1) + 1;
    assert sp.actions(top.state)[top.cursor] in sp.actions(top.state);
    assert SizeFrom(sp, rank, top.state, top.cursor) == Size(sp, rank, t) + SizeFrom(sp, rank, top.state, top.cursor + 1);
  }

  /** Backtracking out of an exhausted non-goal top entry leaves the outcome unchanged and lowers the variant. */
  lemma BacktrackUnwind<S(!new), A(!new)>(sp: Space<S, A>, rank: S -> nat, frontier: seq<Entry<S, A>>, path: seq<A>)
    requires Ranked(sp, rank)
    requires |frontier| == |path| + 1
    requires !sp.isGoal(frontier[|path|].state)
    requires frontier[|path|].cursor >= |sp.actions(frontier[|path|].state)|
    ensures
      var k := |path|;
      var path' := if k > 0 then path[..k - 1] else path;
      && Unwind(sp, rank, frontier[..k], path') == Unwind(sp, rank, frontier, path)
      && Work(sp, rank, frontier[..k]) < Work(sp, rank, frontier)
  {
  }

  /**
   * The bookkeeping the engine keeps while its frontier is in use: one more
   * entry than path actions, each entry holding its state's action list with
   * the cursor inside it, entry `j` holding the state the first `j` path
   * actions lead to, the path action `j` being the one entry `j`'s cursor last
   * produced, and every entry below the top a non-goal state.
   */
  ghost predicate Consistent<S(!new), A(!new)>(sp: Space<S, A>, start: S, frontier: seq<Entry<S, A>>, path: seq<A>)
  {
    && (|frontier| == 0 ==> |path| == 0)
    && (|frontier| > 0 ==> |frontier| == |path| + 1)
    && (forall j :: 0 <= j < |frontier| ==>
          frontier[j].actions == sp.actions(frontier[j].state) && frontier[j].cursor <= |frontier[j].actions|)
    && (forall j :: 0 <= j < |frontier| ==> frontier[j].state == Replay(sp, start, path[..j]))
    && (forall j :: 0 <= j < |frontier| - 1 ==>
          0 < frontier[j].cursor && path[j] == frontier[j].actions[frontier[j].cursor - 1])
    && (forall j :: 0 <= j < |frontier| - 1 ==> !sp.isGoal(frontier[j].state))
  }

  /** The first iteration starts from a consistent frontier and path. */
  lemma ConsistentStart<S(!new), A(!new)>(sp: Space<S, A>, start: S)
    ensures Consistent(sp, start, [Entry(start, sp.actions(start), 0)], [])
  {
  }

  /** A descent from a non-goal top entry keeps the bookkeeping consistent. */
  lemma ConsistentDescend<S(!new), A(!new)>(sp: Space<S, A>, start: S, frontier: seq<Entry<S, A>>, path: seq<A>)
    requires Consistent(sp, start, frontier, path)
    requires |frontier| > 0
    requires !sp.isGoal(frontier[|path|].state)
    requires frontier[|path|].cursor < |sp.actions(frontier[|path|].state)|
    ensures Consistent(sp, start, Descended(sp, frontier),
                       path + [sp.actions(frontier[|path|].state)[frontier[|path|].cursor]])
  {
    var k := |path|;
    var top := frontier[k];
    var a := sp.actions(top.state)[top.cursor];
    var path' := path + [a];
    var frontier' := Descended(sp, frontier);
    ReplayAppend(sp, start, path, a);
    assert forall j :: 0 <= j <= k ==> path'[..j] == path[..j];
    assert path'[..k + 1] == path' && path[..k] == path;
    assert forall j :: 0 <= j <= k ==> frontier'[j].state == frontier[j].state;
  }

  /** Backtracking out of the top entry keeps the bookkeeping consistent. */
  lemma ConsistentBacktrack<S(!new), A(!new)>(sp: Space<S, A>, start: S, frontier: seq<Entry<S, A>>, path: seq<A>)
    requires Consistent(sp, start, frontier, path)
    requires |frontier| > 0
    ensures Consistent(sp, start, frontier[..|path|], if |path| > 0 then path[..|path| - 1] else path)
  {
    var k := |path|;
    var path' := if k > 0 then path[..k - 1] else path;
    assert forall j :: 0 <= j < k ==> path'[..j] == path[..j];
  }

  /**
   * When the top entry holds a goal, the path replays from `start` to that
   * goal through offered actions, and no proper prefix of it reaches a goal.
   */
  lemma ConsistentFound<S(!new), A(!new)>(sp: Space<S, A>, start: S, frontier: seq<Entry<S, A>>, path: seq<A>)
    requires Consistent(sp, start, frontier, path)
    requires |frontier| > 0
    requires sp.isGoal(frontier[|path|].state)
    ensures ValidPath(sp, start, path) && sp.isGoal(Replay(sp, start, path))
    ensures forall k :: 0 <= k < |path| ==> !sp.isGoal(Replay(sp, start, path[..k]))
  {
    assert path[..|path|] == path;
    forall j | 0 <= j < |path| ensures path[j] in sp.actions(Replay(sp, start, path[..j])) {
      assert frontier[j].actions[frontier[j].cursor - 1] in frontier[j].actions;
    }
  }

  /**
   * The engine of src/search.rs: an explicit stack of frontier entries and a
   * parallel path. It returns exactly what the recursive search returns.
   */
  method DepthFirstSearch<S(!new), A(!new)>(sp: Space<S, A>, start: S, ghost rank: S -> nat) returns (r: Option<seq<A>>)
    requires Ranked(sp, rank)
    ensures r == Dfs(sp, rank, start)
    ensures sp.isGoal(start) ==> r == Some([])
    ensures !sp.isGoal(start) && |sp.actions(start)| == 0 ==> r == None
    ensures r.Some? ==> ValidPath(sp, start, r.value) && sp.isGoal(Replay(sp, start, r.value))
    ensures r.Some? ==> forall k :: 0 <= k < |r.value| ==> !sp.isGoal(Replay(sp, start, r.value[..k]))
  {
    var path: seq<A> := [];
    var startActions := sp.actions(start);
    var frontier := [Entry(start, startActions, 0)];
    ConsistentStart(sp, start);
    match Dfs(sp, rank, start) {
      case Some(p) => assert path[..0] + p == p;
      case None =>
    }
    while true
      invariant Consistent(sp, start, frontier, path)
      invariant Unwind(sp, rank, frontier, path) == Dfs(sp, rank, start)
      decreases Work(sp, rank, frontier)
    {
      if |frontier| == 0 {
        return None;
      }
      var k := |frontier| - 1;
      var top := frontier[k];
      if sp.isGoal(top.state) {
        ConsistentFound(sp, start, frontier, path);
        assert path[..k] + [] == path;
        return Some(path);
      }
      if top.cursor < |top.actions| {
        var action := top.actions[top.cursor];
        var nextState := sp.nextState(top.state, action);
        var nextActions := sp.actions(nextState);
        DescendUnwind(sp, rank, frontier, path, action);
        DescendWork(sp, rank, frontier);
        ConsistentDescend(sp, start, frontier, path);
        ghost var frontierBefore := frontier;
        path := path + [action];
        frontier := frontier[k := top.(cursor := top.cursor + 1)];
        frontier := frontier + [Entry(nextState, nextActions, 0)];
        assert frontier == Descended(sp, frontierBefore);
      } else {
        BacktrackUnwind(sp, rank, frontier, path);
        ConsistentBacktrack(sp, start, frontier, path);
        if |path| > 0 {
          path := path[..|path| - 1];
        }
        frontier := frontier[..k];
      }
    }
  }
}
