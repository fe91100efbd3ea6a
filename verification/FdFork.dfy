/** Two descriptor tables after a fork.  The child gets a copy of the parent's handles with their offsets, where POSIX
has parent and child share the open file descriptions: when the two tables still stand for shared descriptions.
 */
module FdFork {
  import opened Wrappers
  import opened FdAlias

  /** Descriptions shared by two tables. */
  datatype Pair =
    Pair(left: map<int, nat>, right: map<int, nat>, node: map<nat, nat>, offset: map<nat, nat>, next: nat)
  {
    function Left(): Shared { Shared(left, node, offset, next) }

    function Right(): Shared { Shared(right, node, offset, next) }

    function Swapped(): Pair { Pair(right, left, node, offset, next) }
  }

  ghost predicate RefinesPair(t: Table, u: Table, p: Pair)
  {
    Refines(t, p.Left()) && Refines(u, p.Right())
  }

  /** A fork copies the table; the descriptions are shared. */
  lemma ForkRefines(t: Table, s: Shared)
    requires Refines(t, s)
    ensures RefinesPair(t, t, Pair(s.of, s.of, s.node, s.offset, s.next))
  {
  }

  /** What POSIX says becomes of the pair when the left process acts. */
  function MeantLeft(p: Pair, op: Op): Pair
  {
    var s := Meant(p.Left(), op);
    Pair(s.of, p.right, s.node, s.offset, s.next)
  }

  /** The operation moves the offset of a description that the other process still has open. */
  ghost predicate MovesShared(p: Pair, op: Op)
  {
    && op.Io? && op.fd in p.left && p.left[op.fd] in p.offset
    && (exists k :: k in p.right && p.right[k] == p.left[op.fd])
    && op.offset != p.offset[p.left[op.fd]]
  }

  /** Descriptions keep their file, and those other than the one moved their offset. */
  lemma MeantElsewhere(s: Shared, op: Op, d: nat)
    requires d in s.offset && d in s.node && d < s.next
    ensures d in Meant(s, op).offset && d in Meant(s, op).node && s.next <= Meant(s, op).next
    ensures Meant(s, op).node[d] == s.node[d]
    ensures Meant(s, op).offset[d] ==
      if op.Io? && op.fd in s.of && s.of[op.fd] == d then op.offset else s.offset[d]
  {
  }

  /** One process acts: the two tables go on standing for shared descriptions exactly when it does not move an offset
      that the other still shares. */
  lemma ActsSharedIff(t: Table, u: Table, p: Pair, op: Op)
    requires RefinesPair(t, u, p)
    ensures RefinesPair(Apply(t, op), u, MeantLeft(p, op)) <==> !MovesShared(p, op)
  {
    hide Apply, Meant, Flat, Rep;
    StepRefines(t, p.Left(), op);
    var q := MeantLeft(p, op);
    forall k | k in p.right
      ensures p.right[k] in q.offset && p.right[k] < q.next && p.right[k] in q.node
      ensures q.node[p.right[k]] == p.node[p.right[k]]
      ensures q.offset[p.right[k]] == p.offset[p.right[k]] <==>
        !(op.Io? && op.fd in p.left && p.left[op.fd] == p.right[k] && op.offset != p.offset[p.right[k]])
    {
      MeantElsewhere(p.Left(), op, p.right[k]);
    }
  }

  /** A run of both processes: `false` is the left one. */
  datatype Turn = Turn(right: bool, op: Op)

  function Flip(p: Pair, right: bool): Pair { if right then p.Swapped() else p }

  function After(t: Table, u: Table, turn: Turn): (Table, Table)
  {
    if turn.right then (t, Apply(u, turn.op)) else (Apply(t, turn.op), u)
  }

  function MeantAfter(p: Pair, turn: Turn): Pair
  {
    Flip(MeantLeft(Flip(p, turn.right), turn.op), turn.right)
  }

  /** No turn moves an offset that the other process shares. */
  ghost predicate Still(p: Pair, turns: seq<Turn>)
    decreases |turns|
  {
    turns == [] ||
    (!MovesShared(Flip(p, turns[0].right), turns[0].op) && Still(MeantAfter(p, turns[0]), turns[1..]))
  }

  function Run(t: Table, u: Table, turns: seq<Turn>): (Table, Table)
    decreases |turns|
  {
    if turns == [] then (t, u) else var (a, b) := After(t, u, turns[0]); Run(a, b, turns[1..])
  }

  function MeantRun(p: Pair, turns: seq<Turn>): Pair
    decreases |turns|
  {
    if turns == [] then p else MeantRun(MeantAfter(p, turns[0]), turns[1..])
  }

  lemma TurnSharedIff(t: Table, u: Table, p: Pair, turn: Turn)
    requires RefinesPair(t, u, p)
    ensures var (a, b) := After(t, u, turn);
      RefinesPair(a, b, MeantAfter(p, turn)) <==> !MovesShared(Flip(p, turn.right), turn.op)
  {
    hide Refines, MovesShared, Apply;
    if turn.right {
      ActsSharedIff(u, t, p.Swapped(), turn.op);
    } else {
      ActsSharedIff(t, u, p, turn.op);
    }
  }

  /** Over every run of the two processes that moves no shared offset, both tables stand for the shared descriptions. */
  lemma {:induction false} StillShares(t: Table, u: Table, p: Pair, turns: seq<Turn>)
    requires RefinesPair(t, u, p) && Still(p, turns)
    ensures var (a, b) := Run(t, u, turns); RefinesPair(a, b, MeantRun(p, turns))
    decreases |turns|
  {
    hide RefinesPair, MovesShared, After, MeantAfter;
    if turns != [] {
      TurnSharedIff(t, u, p, turns[0]);
      var (a, b) := After(t, u, turns[0]);
      StillShares(a, b, MeantAfter(p, turns[0]), turns[1..]);
    }
  }

  /** The first read after a fork is enough: the parent is at offset 5, the child still at 0. */
  lemma ForkedReadDiverges()
    ensures
      var t := Installed(map[0 := Handle(0, 0)]);
      var p := Pair(map[0 := 0], map[0 := 0], map[0 := 0], map[0 := 0], 1);
      RefinesPair(t, t, p) && !RefinesPair(Apply(t, Io(0, 5)), t, MeantLeft(p, Io(0, 5)))
  {
    var t := Installed(map[0 := Handle(0, 0)]);
    InstalledRefines(t.fds, 1);
    var s := FdAlias.Apart(t.fds, 1);
    assert s.of == map[0 := 0] && s.offset == map[0 := 0] && s.node == map[0 := 0];
    ForkRefines(t, s);
    var p := Pair(s.of, s.of, s.node, s.offset, s.next);
    assert 0 in p.right && p.right[0] == p.left[0];
    ActsSharedIff(t, t, p, Io(0, 5));
  }
}
