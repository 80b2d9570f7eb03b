/** HandModelSwitcher: an index over the hand-model groups that steps forward or back with
    wrap-around, and after each step asks the manager to enable the group at the index and
    disable every other one. The manager is not part of this model; its calls are recorded as
    a list of commands, and the pool size it reports is a parameter. */
module HandModelSwitcher {

  /** A call to the manager for the group at `index`. */
  datatype Command = Enable(index: int) | Disable(index: int)

  /** The "NextHand" step: one forward, back to 0 on reaching `size`. */
  function Next(active: int, size: int): (r: int)
    ensures 0 <= active < size ==> 0 <= r < size && r == (active + 1) % size
  {
    if active + 1 >= size then 0 else active + 1
  }

  /** The "PrevHand" step: one back, round to `size - 1` on going below 0. */
  function Prev(active: int, size: int): (r: int)
    ensures 0 <= active < size ==> 0 <= r < size && r == (active - 1 + size) % size
  {
    if active - 1 < 0 then size - 1 else active - 1
  }

  /** The two steps undo each other on any index in range. */
  lemma PrevUndoesNext(active: int, size: int)
    requires 0 <= active < size
    ensures Prev(Next(active, size), size) == active
    ensures Next(Prev(active, size), size) == active
  {
  }

  /** `k` presses of "NextHand". */
  function NextTimes(active: int, size: int, k: nat): int {
    if k == 0 then active else Next(NextTimes(active, size, k - 1), size)
  }

  lemma MulAtLeast(n: int, d: int)
    requires 0 < n && 1 <= d
    ensures n * d >= n
  {
    if d > 1 {
      MulAtLeast(n, d - 1);
      assert n * d == n * (d - 1) + n;
    }
  }

  /** Euclidean remainders are unique. */
  lemma ModUnique(x: int, n: int, q: int, r: int)
    requires 0 < n && 0 <= r < n && x == n * q + r
    ensures x % n == r
  {
    var q', r' := x / n, x % n;
    assert x == n * q' + r';
    if q > q' {
      MulAtLeast(n, q - q');
    } else if q < q' {
      MulAtLeast(n, q' - q);
    }
  }

  lemma ModSucc(x: nat, n: nat)
    requires 0 < n
    ensures (x % n + 1) % n == (x + 1) % n
  {
    var q, r := x / n, x % n;
    assert x == n * q + r;
    if r + 1 < n {
      ModUnique(x + 1, n, q, r + 1);
      ModUnique(r + 1, n, 0, r + 1);
    } else {
      assert x + 1 == n * (q + 1);
      ModUnique(x + 1, n, q + 1, 0);
      ModUnique(n, n, 1, 0);
    }
  }

  /** Pressing "NextHand" `k` times moves the index `k` places round the cycle of groups. */
  lemma {:induction false} NextTimesWraps(active: int, size: int, k: nat)
    requires 0 <= active < size
    ensures NextTimes(active, size, k) == (active + k) % size
  {
    if k > 0 {
      NextTimesWraps(active, size, k - 1);
      ModSucc(active + k - 1, size);
    }
  }

  /** Pressing "NextHand" as many times as there are groups comes back to the start. */
  lemma FullCycle(active: int, size: int)
    requires 0 <= active < size
    ensures NextTimes(active, size, size) == active
  {
    NextTimesWraps(active, size, size);
    ModUnique(active + size, size, 1, active);
  }

  /** What UpdateHands asks of the manager, by position: enable the group at `active`,
      disable every other one. */
  function Commands(active: int, size: int): seq<Command> {
    seq(if size < 0 then 0 else size, i => if i == active then Enable(i) else Disable(i))
  }

  /** UpdateHands: one call per group index from 0 up to `size`, in ascending order; an
      Enable for the index `active` and a Disable for every other index. */
  method UpdateHands(active: int, size: int) returns (cmds: seq<Command>)
    ensures |cmds| == if size < 0 then 0 else size
    ensures forall i | 0 <= i < |cmds| :: cmds[i].index == i
    ensures forall i | 0 <= i < |cmds| :: cmds[i].Enable? <==> i == active
    ensures cmds == Commands(active, size)
  {
    cmds := [];
    var i := 0;
    while i < size
      invariant 0 <= i && (size >= 0 ==> i <= size) && (size < 0 ==> i == 0)
      invariant |cmds| == i
      invariant forall j | 0 <= j < i :: cmds[j] == (if j == active then Enable(j) else Disable(j))
    {
      if i == active {
        cmds := cmds + [Enable(i)];
      } else {
        cmds := cmds + [Disable(i)];
      }
      i := i + 1;
    }
  }

  /** Exactly one group is enabled when the index is in range, and none otherwise. */
  lemma CommandsEnableOne(active: int, size: int)
    ensures var cmds := Commands(active, size);
      0 <= active < size <==> exists i | 0 <= i < |cmds| :: cmds[i].Enable?
  {
    var cmds := Commands(active, size);
    if 0 <= active < size {
      assert cmds[active].Enable?;
    }
  }

  /** The result of one frame: the new index and the calls made to the manager. */
  datatype Frame = Frame(active: int, commands: seq<Command>)

  /** One frame of Update: without a manager nothing happens; otherwise "NextHand" steps
      forward and updates the groups, then "PrevHand" steps back and updates them again. */
  method Update(managerPresent: bool, active: int, size: int, nextDown: bool, prevDown: bool)
    returns (r: Frame)
    ensures !managerPresent ==> r == Frame(active, [])
    ensures managerPresent && 0 <= active < size ==> 0 <= r.active < size
    ensures managerPresent && 0 <= active < size && nextDown && prevDown ==> r.active == active
    ensures managerPresent && !nextDown && !prevDown ==> r == Frame(active, [])
    ensures managerPresent && nextDown && !prevDown ==>
      r == Frame(Next(active, size), Commands(Next(active, size), size))
    ensures managerPresent && !nextDown && prevDown ==>
      r == Frame(Prev(active, size), Commands(Prev(active, size), size))
    ensures managerPresent && nextDown && prevDown ==>
      r == Frame(Prev(Next(active, size), size),
                 Commands(Next(active, size), size) + Commands(Prev(Next(active, size), size), size))
  {
    if !managerPresent {
      return Frame(active, []);
    }
    var a := active;
    var cmds: seq<Command> := [];
    if nextDown {
      a := Next(a, size);
      var c := UpdateHands(a, size);
      cmds := cmds + c;
    }
    if prevDown {
      a := Prev(a, size);
      var c := UpdateHands(a, size);
      cmds := cmds + c;
    }
    if 0 <= active < size && nextDown && prevDown {
      PrevUndoesNext(active, size);
    }
    r := Frame(a, cmds);
  }
}
