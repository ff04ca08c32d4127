# Depth-first search over an abstract search space

This project models the search engine of the `chappie` crate, `depth_first_search`
in `src/search.rs`, and proves what it returns.

A search space answers three pure queries:
- the ordered list of actions a state offers (`actions`);
- the state an action leads to (`next_state`);
- whether a state is a goal (`is_goal`).

The engine keeps two vectors and changes them in place:
- a `frontier` stack of (state, remaining-actions iterator) records;
- a parallel `path` of the actions taken so far.

Each round of its loop does one of four things:
- with an empty frontier, it returns "no path";
- when the top state is a goal, it returns the path;
- when the top record has an action left, it takes it, pushes the action onto the path and pushes a record for the state it leads to;
- when the top record is exhausted, it pops the path (nothing happens when the path is empty) and pops the frontier.

In the model (`search.dfy`, module `Search`):
- the space is a value `Space(actions, nextState, isGoal)` of three pure functions;
- a frontier record is `Entry(state, actions, cursor)`: the action list computed when the record was pushed, and the position of the next action to try, which stands for the Rust iterator;
- `DepthFirstSearch` is the loop, written as a method over two local sequences, in the same order of tests as the source.

The loop is proved equal to a recursive depth-first search, `Dfs`/`DfsFrom`. Lemmas then prove three things about `Dfs`:
- it returns a path of offered actions that replays from the start to a goal;
- it returns "no path" exactly when no sequence of offered actions reaches a goal;
- the path it returns is the first goal-reaching branch in pre-order.

Two invariants carry the proof. The predicate `Consistent` holds the bookkeeping:
- there is one more frontier record than path actions;
- record `j` holds the state that the first `j` path actions lead to;
- path action `j` is the action that record `j`'s cursor produced last;
- every record below the top holds a non-goal state.

`Unwind` states what the engine will still return from the current frontier and path.

The engine keeps no set of visited states. So it runs forever when its pre-order walk enters a cycle or an infinite chain of actions before it meets a goal, for example a non-goal state whose only action leads back to itself. The model therefore asks for a rank on states that every offered action strictly lowers (`Ranked`). The loop's variant, `Work`, is a weighted count of the action-sequence tree still to explore.

`search_tests.dfy` (module `SearchTests`) models the unit test of `src/search.rs`. It is a binary left/right tree with states 0 to 4, searched for a fixed goal, and the module proves the results the test expects. The method `TestDepthFirstSearch` checks the test's seven results on the loop itself, through `Solve`.

## Model

| member | source | states |
|---|---|---|
| `Search.DepthFirstSearch` | src/search.rs:14-48 | The loop returns exactly what the recursive search `Dfs` returns from `start`. A start state that is a goal gives the empty path before any action is taken. A non-goal start with no actions gives "no path". A returned path is made of offered actions, replays from `start` to a goal, and no proper prefix of it reaches a goal. |
| `Search.ConsistentStart` | src/search.rs:16-18 | The initial frontier holds one record for `start`, with its whole action list and the cursor at 0, and the path is empty. This state satisfies the bookkeeping invariant. |
| `Search.ConsistentDescend` | src/search.rs:27-33 | A descent advances the top cursor by one and pushes exactly one action and one record. The new record holds the state reached by replaying the longer path. All invariants are kept. |
| `Search.ConsistentBacktrack` | src/search.rs:39-41 | Popping one path action and one record keeps the invariants. When the start record is popped the path is already empty, so its pop changes nothing and the path stays empty. |
| `Search.ConsistentFound` | src/search.rs:24-25 | When the top record holds a goal, the current path consists of offered actions, replays from `start` to that goal, and passes through no earlier goal. |
| `Search.DescendUnwind` | src/search.rs:27-33 | Taking the next action of a non-goal top record does not change what the engine will eventually return. |
| `Search.DescendWork` | src/search.rs:43-44 | A descent strictly lowers the loop variant, the weighted size of the tree still to explore. |
| `Search.BacktrackUnwind` | src/search.rs:38-41 | Popping an exhausted non-goal record does not change the eventual result. It strictly lowers the variant. |
| `Search.ReplayAppend` | src/search.rs:30-32 | Replaying a path extended by one action reaches `next_state` of the old end state and that action. |
| `Search.ReplayCons` | src/search.rs:10 | Replaying a path that starts with `a` equals replaying the rest from `next_state(s, a)`. |
| `Search.ValidPathCons` | src/search.rs:9-10 | A path starting with `a` is valid exactly when `a` is offered in `s` and the rest is valid from `next_state(s, a)`. Both directions are proved. |
| `Search.DfsFromNone` | src/search.rs:27-28 | If trying the actions from position `i` on finds nothing, then the subtree of every action at or after `i` finds nothing. |
| `Search.DfsFromFirst` | src/search.rs:27-33 | If trying the actions from position `i` on finds a path, that path begins with the action at some position `j >= i`. The rest is the path found below that action. Every action between `i` and `j` found nothing, so actions are tried in list order and each subtree is finished before the next. |
| `Search.DfsSound` | src/search.rs:24-33 | A returned path is made of offered actions, replays from the start to a goal, and no proper prefix of it reaches a goal. |
| `Search.DfsNoneNoGoal` | src/search.rs:21-22 | When the search returns "no path", no sequence of offered actions from the start reaches a goal. |
| `Search.DfsComplete` | src/search.rs:21-41 | The search returns "no path" if and only if no sequence of offered actions reaches a goal. |
| `Search.WalkValid` | src/search.rs:9-10 | Following positions in the action lists gives a valid path of actions. |
| `Search.DfsFirst` | src/search.rs:27-33 | The returned path is the walk of some choice sequence `c` of action positions that reaches a goal. No choice sequence visited before `c` in pre-order reaches a goal: no proper prefix of `c`, and nothing that branches off to an earlier action. So the result is the first goal-reaching branch in depth-first order. |
| `SearchTests.TreeRanked` | src/search.rs:70-90 | The test's tree space has a rank that every action lowers, so the engine terminates on it. |
| `SearchTests.TreeSearch` | src/search.rs:66-95 | From the root, the search finds `[]` for goal 0, `[Left]` for 1, `[Right]` for 2, `[Left, Left]` for 3, `[Left, Right]` for 4, and "no path" for any other goal. |
| `SearchTests.TreeResults` | src/search.rs:104-110 | Proves the seven expected results of the unit test, including `solve(2, 2) == []` and "no path" for `solve(5, 0)`. |
| `SearchTests.Solve` | src/search.rs:98-101 | Searching the tree with the engine gives what the recursive search gives. |

## Left out

- `Search.DepthFirstSearch`: it requires a rank that every offered action strictly lowers, from every state (`Ranked`). The source makes no such demand. It runs forever when its pre-order walk enters a cycle or an infinite chain of actions before it meets a goal, and the model does not describe that non-terminating behaviour.
- `Search.DepthFirstSearch`: `Ranked` also excludes spaces on which the source does terminate, so nothing is proved for them. One example is a start state that is a goal and has a self-loop: the source returns the empty path in its first round. Another is a space whose only cycle lies among states that the start cannot reach.
- Visited-set or fingerprint deduplication: the code has none, so none is modelled. The same state may be expanded many times, once per path that reaches it.
- Rust trait bounds (`Ord`, `Hash`, `Eq`, `Clone`, `Debug`), ownership, and moves versus clones of states and actions are not modelled. The iterator is a cursor into the action list computed when its record is pushed.
- The source tests the top state's goal again each time a record returns to the top of the frontier. The model does the same. The test is pure, so repeating it has no effect, and no count of goal queries is modelled.
- `benches/bench.rs` is not part of this model. It is a timing harness written against another shape of the trait (`expand`, `type Iterator`, `dfs`) that `src/search.rs` does not define.
- The unit test's `i32` states are modelled as unbounded integers. Only the values 0 to 5 occur, so no overflow is involved.
