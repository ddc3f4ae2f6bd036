/** The launcher of tlibc/system.c: processes that fork, pipe and rearrange
    their descriptors, interleaved in any order, with any call free to fail. */
module Pipeline {
  import opened Wrappers

  /** What a descriptor stands for: something open before, one end of a pipe, or a file opened for a redirection. */
  datatype Desc = Outer(id: nat) | ReadEnd(pipe: nat) | WriteEnd(pipe: nat) | File(path: nat)

  type Table = map<nat, Desc>

  // ----- system calls on one table -----

  /** The descriptors in use from `k` on. */
  ghost function From(t: Table, k: nat): set<nat> {
    set x | x in t && x >= k
  }

  /** The lowest descriptor from `k` on that is not in use. */
  function Lowest(t: Table, k: nat): (fd: nat)
    ensures fd !in t && k <= fd && forall j :: k <= j < fd ==> j in t
    decreases From(t, k)
  {
    if k !in t then k
    else
      assert k in From(t, k) && From(t, k + 1) < From(t, k);
      Lowest(t, k + 1)
  }

  datatype Piped = Piped(fds: Table, r: nat, w: nat)

  function PipeCall(t: Table, id: nat): Piped {
    var r := Lowest(t, 0);
    var t' := t[r := ReadEnd(id)];
    var w := Lowest(t', 0);
    Piped(t'[w := WriteEnd(id)], r, w)
  }

  function Dup2(t: Table, from: nat, to: nat): Table {
    if from in t then t[to := t[from]] else t
  }

  function Close(t: Table, fd: nat): Table {
    t - {fd}
  }

  // ----- processes -----

  datatype Side = Child | Parent

  /** Where a process stands in exec_recur_noret. */
  datatype Pc = Recur | Forking | Dup(side: Side) | CloseRead(side: Side) | CloseWrite(side: Side) | Running | Exited

  datatype Proc = Proc(parent: Option<nat>, cur: int, pc: Pc, r: nat, w: nat, fds: Table)

  datatype Shell = Ready | Waiting | Failed

  /** Processes in the order of their creation; the shell keeps its own table. */
  datatype State = State(shell: Shell, outer: Table, procs: seq<Proc>, pipes: nat)

  function Start(outer: Table): State {
    State(Ready, outer, [], 0)
  }

  /** exec_job up to the wait: fork the process that starts at the last job. */
  function ShellStep(s: State, n: nat, ok: bool): State {
    if !s.shell.Ready? then s
    else if !ok then s.(shell := Failed)
    else s.(shell := Waiting, procs := s.procs + [Proc(None, n - 1, Recur, 0, 0, s.outer)])
  }

  /** What process `k` does next by itself; `id` names the pipe it may make. */
  function Alone(p: Proc, ok: bool, id: nat): Proc {
    match p.pc
    case Recur =>
      if p.cur == 0 then p.(pc := Running)
      else if !ok then p.(pc := Exited, fds := map[])
      else var q := PipeCall(p.fds, id); p.(pc := Forking, r := q.r, w := q.w, fds := q.fds)
    case Forking => if ok then p.(pc := Dup(Parent)) else p.(pc := Exited, fds := map[])
    case Dup(side) =>
      p.(pc := CloseRead(side), fds := if side.Child? then Dup2(p.fds, p.w, 1) else Dup2(p.fds, p.r, 0))
    case CloseRead(side) => p.(pc := CloseWrite(side), fds := Close(p.fds, p.r))
    case CloseWrite(Child) => p.(pc := Recur, cur := p.cur - 1, fds := Close(p.fds, p.w))
    case CloseWrite(Parent) => p.(pc := Running, fds := Close(p.fds, p.w))
    case Running => p
    case Exited => p
  }

  /** One step of process `k`; `ok` is the answer of pipe or fork. */
  function ProcStep(s: State, k: nat, ok: bool): State
    requires k < |s.procs|
  {
    var p := s.procs[k];
    var procs := s.procs[k := Alone(p, ok, s.pipes)];
    if p.pc.Forking? && ok then s.(procs := procs + [p.(parent := Some(k), pc := Dup(Child))])
    else if p.pc.Recur? && p.cur != 0 && ok then s.(procs := procs, pipes := s.pipes + 1)
    else s.(procs := procs)
  }

  /** Who moves, and whether a call that may fail succeeds. */
  datatype Choice = Choice(who: Option<nat>, ok: bool)

  function Step(s: State, n: nat, c: Choice): State {
    if c.who.None? then ShellStep(s, n, c.ok)
    else if c.who.value < |s.procs| then ProcStep(s, c.who.value, c.ok)
    else s
  }

  function Run(outer: Table, n: nat, cs: seq<Choice>): State {
    if cs == [] then Start(outer) else Step(Run(outer, n, cs[..|cs| - 1]), n, cs[|cs| - 1])
  }

  // ----- the table of every process, from its place alone -----

  function AfterChild(t: Table, id: nat): Table {
    var q := PipeCall(t, id);
    Close(Close(Dup2(q.fds, q.w, 1), q.r), q.w)
  }

  function AfterParent(t: Table, id: nat): Table {
    var q := PipeCall(t, id);
    Close(Close(Dup2(q.fds, q.r, 0), q.r), q.w)
  }

  /** The table process `k` enters the recursion with. */
  function Entry(outer: Table, k: nat): Table {
    if k == 0 then outer else AfterChild(Entry(outer, k - 1), k - 1)
  }

  /** The table with which process `k` of `n` runs its job. */
  function Final(outer: Table, n: nat, k: nat): Table {
    if k == n - 1 then Entry(outer, k) else AfterParent(Entry(outer, k), k)
  }

  /** The level at which the rearrangement a process is in began. */
  function Level(p: Proc, k: nat): nat {
    if (p.pc.Dup? || p.pc.CloseRead? || p.pc.CloseWrite?) && p.pc.side.Child? && k > 0 then k - 1 else k
  }

  ghost predicate ProcOk(outer: Table, n: nat, k: nat, p: Proc) {
    var l := Level(p, k);
    var q := PipeCall(Entry(outer, l), l);
    && p.parent == (if k == 0 then None else Some(k - 1))
    && (p.pc.Exited? || p.cur == n - 1 - l)
    && (p.pc.Exited? || p.pc.Recur? || p.pc.Running? || (p.r == q.r && p.w == q.w && p.cur > 0))
    && match p.pc
       case Recur => p.fds == Entry(outer, k)
       case Forking => p.fds == q.fds
       case Dup(side) => p.fds == q.fds && (side.Child? ==> k > 0)
       case CloseRead(Child) => p.fds == Dup2(q.fds, q.w, 1) && k > 0
       case CloseRead(Parent) => p.fds == Dup2(q.fds, q.r, 0)
       case CloseWrite(Child) => p.fds == Close(Dup2(q.fds, q.w, 1), q.r) && k > 0
       case CloseWrite(Parent) => p.fds == Close(Dup2(q.fds, q.r, 0), q.r)
       case Running => p.fds == Final(outer, n, k)
       case Exited => p.fds == map[]
  }

  /** A process that has forked: it only rearranges its descriptors and runs its job. */
  predicate Forked(p: Proc) {
    p.pc == Dup(Parent) || p.pc == CloseRead(Parent) || p.pc == CloseWrite(Parent) || (p.pc.Running? && p.cur > 0)
  }

  ghost predicate Inv(s: State, outer: Table, n: nat) {
    var m := |s.procs|;
    && s.outer == outer && m <= n && (s.shell.Waiting? <==> m > 0)
    && (forall k :: 0 <= k < m ==> ProcOk(outer, n, k, s.procs[k]))
    && (forall k :: 0 <= k < m - 1 ==> Forked(s.procs[k]))
    && (m > 0 ==> !Forked(s.procs[m - 1]))
    && (m == 0 ==> s.pipes == 0)
    && (m > 0 && !s.procs[m - 1].pc.Exited? ==> s.pipes == if s.procs[m - 1].pc.Forking? then m else m - 1)
  }

  lemma AloneOk(outer: Table, n: nat, k: nat, p: Proc, ok: bool)
    requires ProcOk(outer, n, k, p) && k < n
    ensures ProcOk(outer, n, k, Alone(p, ok, k))
  {
    hide PipeCall, Dup2, Close;
    if p.pc == CloseWrite(Child) {
      assert Entry(outer, k) == AfterChild(Entry(outer, k - 1), k - 1);
    }
  }

  /** A new child stands where its parent forked. */
  lemma ChildOk(outer: Table, n: nat, k: nat, p: Proc)
    requires ProcOk(outer, n, k, p) && p.pc.Forking?
    ensures ProcOk(outer, n, k + 1, p.(parent := Some(k), pc := Dup(Child)))
  {
    hide PipeCall, Entry;
  }

  /** Only a process about to make a pipe looks at the next pipe number. */
  lemma PipeNumber(s: State, outer: Table, n: nat, k: nat, ok: bool)
    requires Inv(s, outer, n) && k < |s.procs|
    ensures Alone(s.procs[k], ok, s.pipes) == Alone(s.procs[k], ok, k)
  {
    hide PipeCall, Dup2, Close, ProcOk;
    assert s.procs[k].pc.Recur? ==> k == |s.procs| - 1;
  }

  /** Forking is what turns a process into a forked one, and there is a job left for the child. */
  lemma AloneForked(outer: Table, n: nat, k: nat, p: Proc, ok: bool, id: nat)
    requires ProcOk(outer, n, k, p)
    ensures Forked(Alone(p, ok, id)) <==> Forked(p) || (p.pc.Forking? && ok)
    ensures p.pc.Forking? && ok ==> k + 1 < n
  {
    hide PipeCall, Dup2, Close, Final, Entry;
  }

  lemma ForkKeeps(s: State, outer: Table, n: nat, k: nat)
    requires Inv(s, outer, n) && k < |s.procs| && s.procs[k].pc.Forking?
    ensures Inv(ProcStep(s, k, true), outer, n)
  {
    hide PipeCall, ProcOk;
    AloneOk(outer, n, k, s.procs[k], true);
    AloneForked(outer, n, k, s.procs[k], true, k);
    ChildOk(outer, n, k, s.procs[k]);
  }

  lemma MoveKeeps(s: State, outer: Table, n: nat, k: nat, ok: bool)
    requires Inv(s, outer, n) && k < |s.procs| && !(s.procs[k].pc.Forking? && ok)
    ensures Inv(ProcStep(s, k, ok), outer, n)
  {
    hide PipeCall, Dup2, Close, ProcOk;
    PipeNumber(s, outer, n, k, ok);
    AloneOk(outer, n, k, s.procs[k], ok);
    AloneForked(outer, n, k, s.procs[k], ok, s.pipes);
  }

  lemma StepKeeps(s: State, outer: Table, n: nat, c: Choice)
    requires Inv(s, outer, n) && n > 0
    ensures Inv(Step(s, n, c), outer, n)
  {
    hide PipeCall, ProcStep;
    if c.who.Some? && c.who.value < |s.procs| {
      if s.procs[c.who.value].pc.Forking? && c.ok {
        ForkKeeps(s, outer, n, c.who.value);
      } else {
        MoveKeeps(s, outer, n, c.who.value, c.ok);
      }
    }
  }

  lemma {:induction false} RunKeeps(outer: Table, n: nat, cs: seq<Choice>)
    requires n > 0
    ensures Inv(Run(outer, n, cs), outer, n)
  {
    if cs != [] {
      RunKeeps(outer, n, cs[..|cs| - 1]);
      StepKeeps(Run(outer, n, cs[..|cs| - 1]), outer, n, cs[|cs| - 1]);
    }
  }

  // ----- what a finished pipeline looks like -----

  /** Nothing failed and every process has reached its job. */
  ghost predicate Complete(s: State) {
    s.shell.Waiting? && forall k :: 0 <= k < |s.procs| ==> s.procs[k].pc.Running?
  }

  /** `fd` stands for the same thing in both tables, or for nothing in both. */
  predicate SameAt(t: Table, u: Table, fd: nat) {
    (fd in t <==> fd in u) && (fd in t ==> t[fd] == u[fd])
  }

  /** Among all processes, the shell included, only process `k` has `d`, and only as `fd`. */
  ghost predicate OnlyHolder(s: State, d: Desc, k: nat, fd: nat) {
    && k < |s.procs| && fd in s.procs[k].fds
    && (forall i, f :: 0 <= i < |s.procs| && f in s.procs[i].fds ==> (s.procs[i].fds[f] == d <==> i == k && f == fd))
    && forall f :: f in s.outer ==> s.outer[f] != d
  }

  /** Pipe `p` leads from the process of job `j` to that of the next job. */
  ghost predicate Joined(s: State, n: nat, j: nat, p: nat)
    requires j < n - 1
  {
    OnlyHolder(s, WriteEnd(p), n - 1 - j, 1) && OnlyHolder(s, ReadEnd(p), n - 2 - j, 0)
  }

  /** Some pipe joins job `j` to the next. */
  ghost predicate Linked(s: State, n: nat, j: nat)
    requires j < n - 1
  {
    exists p :: 0 <= p < s.pipes && Joined(s, n, j, p)
  }

  /** Every process runs its own job and descends from the shell through the jobs behind it. */
  ghost predicate InPlace(s: State, n: nat) {
    && |s.procs| == n && s.pipes == n - 1
    && forall k :: 0 <= k < n ==>
         && s.procs[k].pc.Running? && s.procs[k].cur == n - 1 - k
         && s.procs[k].parent == if k == 0 then None else Some(k - 1)
  }

  ghost predicate Wired(s: State, n: nat)
    requires n > 0
  {
    && InPlace(s, n)
    && SameAt(s.procs[n - 1].fds, s.outer, 0) && SameAt(s.procs[0].fds, s.outer, 1)
    && (forall j :: 0 <= j < n - 1 ==> Linked(s, n, j))
    && forall k, fd :: 0 <= k < n && fd >= 2 ==> SameAt(s.procs[k].fds, s.outer, fd)
  }

  /** No pipe is open before the launcher starts. */
  predicate Plain(outer: Table) {
    forall fd :: fd in outer ==> outer[fd].Outer?
  }

  lemma ChildTable(t: Table, id: nat)
    requires 0 in t && 1 in t
    ensures AfterChild(t, id) == t[1 := WriteEnd(id)] && AfterParent(t, id) == t[0 := ReadEnd(id)]
  {
    var q := PipeCall(t, id);
    assert q.r !in t && q.w !in t && q.r != q.w && q.r >= 2 && q.w >= 2;
  }

  lemma {:induction false} EntryTable(outer: Table, k: nat)
    requires 0 in outer && 1 in outer
    ensures Entry(outer, k) == if k == 0 then outer else outer[1 := WriteEnd(k - 1)]
  {
    if k > 0 {
      EntryTable(outer, k - 1);
      ChildTable(Entry(outer, k - 1), k - 1);
    }
  }

  /** The table a job runs with, when the standard descriptors are open. */
  function JobTable(outer: Table, n: nat, k: nat): Table {
    var t := if k == 0 then outer else outer[1 := WriteEnd(k - 1)];
    if k == n - 1 then t else t[0 := ReadEnd(k)]
  }

  lemma FinalTable(outer: Table, n: nat, k: nat)
    requires k < n && (n == 1 || (0 in outer && 1 in outer))
    ensures Final(outer, n, k) == JobTable(outer, n, k)
  {
    hide AfterChild, AfterParent;
    if n > 1 {
      EntryTable(outer, k);
      ChildTable(Entry(outer, k), k);
    }
  }

  /** A complete state has made all its processes and pipes. */
  lemma CompletePlaced(s: State, outer: Table, n: nat)
    requires Inv(s, outer, n) && Complete(s)
    ensures InPlace(s, n) && forall k :: 0 <= k < n ==> s.procs[k].fds == Final(outer, n, k)
  {
    hide PipeCall, Entry, Final;
    var m := |s.procs|;
    assert ProcOk(outer, n, m - 1, s.procs[m - 1]);
    forall k | 0 <= k < m
      ensures s.procs[k].cur == n - 1 - k && s.procs[k].fds == Final(outer, n, k)
      ensures s.procs[k].parent == if k == 0 then None else Some(k - 1)
    {
      assert ProcOk(outer, n, k, s.procs[k]);
    }
  }

  ghost predicate Tabled(s: State, n: nat) {
    InPlace(s, n) && n > 0 && Plain(s.outer) && forall k :: 0 <= k < n ==> s.procs[k].fds == JobTable(s.outer, n, k)
  }

  lemma TableEnds(outer: Table, n: nat, k: nat, f: nat)
    requires Plain(outer) && k < n && f in JobTable(outer, n, k)
    ensures forall p: nat :: JobTable(outer, n, k)[f] == WriteEnd(p) <==> k == p + 1 && f == 1
    ensures forall p: nat :: JobTable(outer, n, k)[f] == ReadEnd(p) <==> k == p && f == 0 && k < n - 1
    ensures f >= 2 ==> SameAt(JobTable(outer, n, k), outer, f)
  {
  }

  lemma EndsHeld(s: State, n: nat, j: nat)
    requires Tabled(s, n) && j < n - 1
    ensures Joined(s, n, j, n - 2 - j)
  {
    hide JobTable;
    forall i, f | 0 <= i < n && f in s.procs[i].fds
      ensures s.procs[i].fds[f] == WriteEnd(n - 2 - j) <==> i == n - 1 - j && f == 1
      ensures s.procs[i].fds[f] == ReadEnd(n - 2 - j) <==> i == n - 2 - j && f == 0
    {
      TableEnds(s.outer, n, i, f);
    }
    JobEnds(s.outer, n, n - 1 - j);
    JobEnds(s.outer, n, n - 2 - j);
  }

  lemma JobEnds(outer: Table, n: nat, k: nat)
    ensures k > 0 ==> 1 in JobTable(outer, n, k)
    ensures k < n - 1 ==> 0 in JobTable(outer, n, k)
  {
  }

  lemma TablesWired(s: State, n: nat)
    requires Tabled(s, n)
    ensures Wired(s, n)
  {
    hide Joined, Plain;
    forall j | 0 <= j < n - 1
      ensures Linked(s, n, j)
    {
      EndsHeld(s, n, j);
    }
  }

  /** Descriptor 0 closed: the last job loses the pipe it should read. */
  lemma NoStdin(outer: Table)
    requires 0 !in outer
    ensures 0 !in AfterParent(outer, 0)
  {
    assert PipeCall(outer, 0).r == 0;
  }

  /** Descriptor 1 closed: a job loses the pipe it should write, whether it forks or not. */
  lemma NoStdout(t: Table, id: nat)
    requires 0 in t && 1 !in t
    ensures 0 in AfterChild(t, id) && 1 !in AfterChild(t, id) && 1 !in AfterParent(t, id)
  {
    var q := PipeCall(t, id);
    assert q.r == 1 && q.w >= 2;
  }

  lemma WiredNeeds(s: State, outer: Table, n: nat)
    requires n >= 2 && Wired(s, n) && s.outer == outer
    requires forall k :: 0 <= k < n ==> s.procs[k].fds == Final(outer, n, k)
    ensures 0 in outer && 1 in outer
  {
    hide AfterChild, AfterParent;
    assert Linked(s, n, n - 2);
    var p :| 0 <= p < s.pipes && Joined(s, n, n - 2, p);
    assert 1 in s.procs[1].fds && 0 in s.procs[0].fds;
    if 0 !in outer {
      NoStdin(outer);
    } else if 1 !in outer {
      NoStdout(outer, 0);
      assert Entry(outer, 1) == AfterChild(outer, 0);
      NoStdout(Entry(outer, 1), 1);
    }
  }

  /**
   * Every run that completes, whatever the interleaving, wires the pipeline:
   * n - 1 pipes, each joining the stdout of a job to the stdin of the next and
   * held at either end by one process under one descriptor; the outer stdin
   * and stdout at the two ends; all else inherited; and the shell's one child
   * running the last job. It does so exactly when there is a single job or
   * descriptors 0 and 1 were open.
   */
  lemma PipelineWired(outer: Table, n: nat, cs: seq<Choice>)
    requires n > 0 && Plain(outer) && Complete(Run(outer, n, cs))
    ensures Wired(Run(outer, n, cs), n) <==> n == 1 || (0 in outer && 1 in outer)
  {
    hide Wired, Final, JobTable;
    var s := Run(outer, n, cs);
    RunKeeps(outer, n, cs);
    CompletePlaced(s, outer, n);
    if n == 1 || (0 in outer && 1 in outer) {
      forall k | 0 <= k < n
        ensures s.procs[k].fds == JobTable(outer, n, k)
      {
        FinalTable(outer, n, k);
      }
      TablesWired(s, n);
    } else if Wired(s, n) {
      WiredNeeds(s, outer, n);
    }
  }

  /** Even when calls fail elsewhere, a process that reaches its job has that job's final table. */
  lemma RunningWired(outer: Table, n: nat, cs: seq<Choice>, k: nat)
    requires n > 0 && (n == 1 || (0 in outer && 1 in outer))
    requires var s := Run(outer, n, cs); k < |s.procs| && s.procs[k].pc.Running?
    ensures var s := Run(outer, n, cs); k < n && s.procs[k].cur == n - 1 - k && s.procs[k].fds == JobTable(outer, n, k)
  {
    hide Final, JobTable, Run, PipeCall, Entry;
    RunKeeps(outer, n, cs);
    assert ProcOk(outer, n, k, Run(outer, n, cs).procs[k]);
    FinalTable(outer, n, k);
  }

  // ----- every run comes to an end -----

  /** Steps a process and its descendants still have to take. */
  function Ahead(p: Proc): nat {
    var c := if p.cur > 0 then p.cur else 0;
    match p.pc
    case Recur => 8 * c + 1
    case Forking => 8 * c
    case Dup(Child) => if c > 0 then 8 * c - 4 else 0
    case CloseRead(Child) => if c > 0 then 8 * c - 5 else 0
    case CloseWrite(Child) => if c > 0 then 8 * c - 6 else 0
    case Dup(Parent) => 3
    case CloseRead(Parent) => 2
    case CloseWrite(Parent) => 1
    case Running => 0
    case Exited => 0
  }

  function Sum(ps: seq<Proc>): nat {
    if ps == [] then 0 else Sum(ps[..|ps| - 1]) + Ahead(ps[|ps| - 1])
  }

  function Remaining(s: State, n: nat): nat {
    Sum(s.procs) + if s.shell.Ready? && n > 0 then 8 * (n - 1) + 2 else 0
  }

  lemma {:induction false} SumUpdate(ps: seq<Proc>, k: nat, p: Proc)
    requires k < |ps|
    ensures Sum(ps[k := p]) == Sum(ps) - Ahead(ps[k]) + Ahead(p)
    decreases |ps|
  {
    var l := |ps| - 1;
    if k < l {
      SumUpdate(ps[..l], k, p);
      assert ps[k := p][..l] == ps[..l][k := p];
    } else {
      assert ps[k := p][..l] == ps[..l];
    }
  }

  /** The move of `c` changes something. */
  predicate Moves(s: State, c: Choice) {
    if c.who.None? then s.shell.Ready?
    else c.who.value < |s.procs| && !s.procs[c.who.value].pc.Running? && !s.procs[c.who.value].pc.Exited?
  }

  lemma AloneAhead(outer: Table, n: nat, k: nat, p: Proc, ok: bool, id: nat)
    requires ProcOk(outer, n, k, p) && k < n && !p.pc.Running? && !p.pc.Exited?
    ensures p.pc.Forking? && ok ==> Ahead(Alone(p, ok, id)) + Ahead(p.(pc := Dup(Child))) + 1 == Ahead(p)
    ensures !(p.pc.Forking? && ok) ==> Ahead(Alone(p, ok, id)) + 1 <= Ahead(p)
    ensures ok && !p.pc.Forking? ==> Ahead(Alone(p, ok, id)) + 1 == Ahead(p)
  {
    hide PipeCall, Entry, Final, Dup2, Close;
  }

  /** A move brings the end nearer, by exactly one step when its call succeeds. */
  lemma MoveAdvances(s: State, outer: Table, n: nat, c: Choice)
    requires Inv(s, outer, n) && n > 0 && Moves(s, c)
    ensures Remaining(Step(s, n, c), n) + 1 <= Remaining(s, n)
    ensures c.ok ==> Remaining(Step(s, n, c), n) + 1 == Remaining(s, n)
  {
    hide ProcOk, Alone;
    if c.who.None? {
      assert Step(s, n, c).procs == s.procs + if c.ok then [Proc(None, n - 1, Recur, 0, 0, s.outer)] else [];
    } else {
      var k := c.who.value;
      var p := s.procs[k];
      var q := Alone(p, c.ok, s.pipes);
      AloneAhead(outer, n, k, p, c.ok, s.pipes);
      SumUpdate(s.procs, k, q);
      var ps := s.procs[k := q] + [p.(parent := Some(k), pc := Dup(Child))];
      assert ps[..|ps| - 1] == s.procs[k := q];
    }
  }

  /** Every choice of the schedule moves somebody. */
  ghost predicate Busy(outer: Table, n: nat, cs: seq<Choice>) {
    forall i :: 0 <= i < |cs| ==> Moves(Run(outer, n, cs[..i]), cs[i])
  }

  /**
   * No schedule keeps the launcher busy for more than 8n - 6 steps, and one in
   * which every call succeeds takes exactly that many to complete.
   */
  lemma {:induction false} RunEnds(outer: Table, n: nat, cs: seq<Choice>)
    requires n > 0 && Busy(outer, n, cs)
    ensures |cs| + Remaining(Run(outer, n, cs), n) <= 8 * n - 6
    ensures (forall i :: 0 <= i < |cs| ==> cs[i].ok) ==> |cs| + Remaining(Run(outer, n, cs), n) == 8 * n - 6
    decreases |cs|
  {
    if cs != [] {
      var l := |cs| - 1;
      var pre := cs[..l];
      assert forall i :: 0 <= i <= l ==> pre[..i] == cs[..i];
      assert forall i :: 0 <= i < l ==> pre[i] == cs[i];
      RunEnds(outer, n, pre);
      RunKeeps(outer, n, pre);
      MoveAdvances(Run(outer, n, pre), outer, n, cs[l]);
    }
  }

  lemma {:induction false} SumZero(ps: seq<Proc>)
    ensures Sum(ps) == 0 <==> forall k :: 0 <= k < |ps| ==> Ahead(ps[k]) == 0
  {
    if ps != [] {
      SumZero(ps[..|ps| - 1]);
    }
  }

  /** Whenever steps remain, some process can take one: the launcher never deadlocks. */
  lemma NeverStuck(outer: Table, n: nat, cs: seq<Choice>)
    requires n > 0 && Remaining(Run(outer, n, cs), n) > 0
    ensures exists c :: Moves(Run(outer, n, cs), c)
  {
    var s := Run(outer, n, cs);
    if s.shell.Ready? {
      assert Moves(s, Choice(None, true));
    } else {
      SumZero(s.procs);
      var k :| 0 <= k < |s.procs| && Ahead(s.procs[k]) != 0;
      assert Moves(s, Choice(Some(k), true));
    }
  }

  // ----- runs in which every call succeeds -----

  /** Every fork and every pipe of the schedule succeeds. */
  ghost predicate AllOk(cs: seq<Choice>) {
    forall i :: 0 <= i < |cs| ==> cs[i].ok
  }

  ghost predicate Unfailed(s: State) {
    !s.shell.Failed? && forall k :: 0 <= k < |s.procs| ==> !s.procs[k].pc.Exited?
  }

  lemma UnfailedStep(s: State, n: nat, c: Choice)
    requires Unfailed(s) && c.ok
    ensures Unfailed(Step(s, n, c))
  {
    hide PipeCall, Dup2, Close;
  }

  /** Where every call succeeds no process exits and the shell does not give up. */
  lemma {:induction false} NoFailure(outer: Table, n: nat, cs: seq<Choice>)
    requires AllOk(cs)
    ensures Unfailed(Run(outer, n, cs))
    decreases |cs|
  {
    if cs != [] {
      NoFailure(outer, n, cs[..|cs| - 1]);
      UnfailedStep(Run(outer, n, cs[..|cs| - 1]), n, cs[|cs| - 1]);
    }
  }

  /** A process has nothing ahead exactly when it runs its job or has exited. */
  lemma NothingAhead(outer: Table, n: nat, k: nat, p: Proc)
    requires ProcOk(outer, n, k, p)
    ensures Ahead(p) == 0 <==> p.pc.Running? || p.pc.Exited?
  {
    hide PipeCall, Entry, Final, Dup2, Close;
  }

  /** Without failures, nothing remaining and complete are the same. */
  lemma CompleteIff(s: State, outer: Table, n: nat)
    requires n > 0 && Inv(s, outer, n) && Unfailed(s)
    ensures Complete(s) <==> Remaining(s, n) == 0
  {
    hide ProcOk, Ahead;
    SumZero(s.procs);
    forall k | 0 <= k < |s.procs|
      ensures Ahead(s.procs[k]) == 0 <==> s.procs[k].pc.Running?
    {
      NothingAhead(outer, n, k, s.procs[k]);
    }
  }

  /**
   * With fork and pipe succeeding, however the processes interleave: the
   * launcher takes at most 8n - 6 steps, is complete exactly after the last of
   * them, and has then wired the pipeline, exactly when there is a single job
   * or descriptors 0 and 1 were open.
   */
  lemma PipelineRuns(outer: Table, n: nat, cs: seq<Choice>)
    requires n > 0 && Plain(outer) && AllOk(cs) && Busy(outer, n, cs)
    ensures |cs| <= 8 * n - 6
    ensures Complete(Run(outer, n, cs)) <==> |cs| == 8 * n - 6
    ensures |cs| == 8 * n - 6 ==> (Wired(Run(outer, n, cs), n) <==> n == 1 || (0 in outer && 1 in outer))
  {
    hide Inv, Complete, Wired, Remaining, Unfailed, Run;
    RunEnds(outer, n, cs);
    RunKeeps(outer, n, cs);
    NoFailure(outer, n, cs);
    CompleteIff(Run(outer, n, cs), outer, n);
    if Complete(Run(outer, n, cs)) {
      PipelineWired(outer, n, cs);
    }
  }

  lemma BusyMore(outer: Table, n: nat, cs: seq<Choice>, c: Choice)
    requires Busy(outer, n, cs) && Moves(Run(outer, n, cs), c)
    ensures Busy(outer, n, cs + [c])
  {
    var ds := cs + [c];
    forall i | 0 <= i < |ds|
      ensures Moves(Run(outer, n, ds[..i]), ds[i])
    {
      assert ds[..i] == cs[..i];
      assert i == |cs| ==> cs[..i] == cs;
    }
  }

  /** For every number of jobs there is a schedule of any length up to the last step, and so one that completes. */
  lemma {:induction false} ScheduleExists(outer: Table, n: nat, len: nat) returns (cs: seq<Choice>)
    requires n > 0 && len <= 8 * n - 6
    ensures |cs| == len && AllOk(cs) && Busy(outer, n, cs)
    ensures len == 8 * n - 6 ==> Complete(Run(outer, n, cs))
    decreases len
  {
    hide Run, Remaining, Complete, Inv, Unfailed;
    if len == 0 {
      cs := [];
    } else {
      var pre := ScheduleExists(outer, n, len - 1);
      RunEnds(outer, n, pre);
      NeverStuck(outer, n, pre);
      var c :| Moves(Run(outer, n, pre), c);
      cs := pre + [Choice(c.who, true)];
      BusyMore(outer, n, pre, Choice(c.who, true));
    }
    if len == 8 * n - 6 {
      RunEnds(outer, n, cs);
      RunKeeps(outer, n, cs);
      NoFailure(outer, n, cs);
      CompleteIff(Run(outer, n, cs), outer, n);
    }
  }

  /** The shell's children: the process of the last job and no other, in every reachable state. */
  lemma ShellWaitsForLast(outer: Table, n: nat, cs: seq<Choice>, k: nat)
    requires n > 0 && k < |Run(outer, n, cs).procs|
    ensures var p := Run(outer, n, cs).procs[k];
      (p.parent.None? <==> k == 0) && (p.parent.None? && p.pc.Running? ==> p.cur == n - 1)
  {
    hide Run, PipeCall, Entry, Final;
    RunKeeps(outer, n, cs);
    assert ProcOk(outer, n, k, Run(outer, n, cs).procs[k]);
  }

  ghost predicate Jobless(s: State) {
    forall k :: 0 <= k < |s.procs| ==> s.procs[k].cur < 0
  }

  lemma JoblessStep(s: State, c: Choice)
    requires Jobless(s)
    ensures Jobless(Step(s, 0, c))
  {
    hide PipeCall, Dup2, Close;
  }

  /** Called without jobs, the recursion never meets its base case and no process ever gets a job that exists. */
  lemma {:induction false} NoJobs(outer: Table, cs: seq<Choice>)
    ensures Jobless(Run(outer, 0, cs))
  {
    if cs != [] {
      NoJobs(outer, cs[..|cs| - 1]);
      JoblessStep(Run(outer, 0, cs[..|cs| - 1]), cs[|cs| - 1]);
    }
  }

  // ----- file redirections -----

  /** sys_open, then dup2; a failed open makes the dup2 fail too. */
  function Redirect(t: Table, path: Option<nat>, opens: bool, to: nat): Table {
    if path.None? || !opens then t
    else var fd := Lowest(t, 0); Dup2(t[fd := File(path.value)], fd, to)
  }

  /** exec_single before the exec: stdin, stdout and stderr, in this order. */
  function Redirected(t: Table, paths: seq<Option<nat>>, opens: seq<bool>): Table
    requires |paths| == |opens| == 3
  {
    Redirect(Redirect(Redirect(t, paths[0], opens[0], 0), paths[1], opens[1], 1), paths[2], opens[2], 2)
  }

  lemma RedirectOne(t: Table, path: Option<nat>, opens: bool, to: nat, fd: nat)
    requires fd in t || (fd == to && path.Some? && opens)
    ensures var u := Redirect(t, path, opens, to);
      fd in u && u[fd] == if fd == to && path.Some? && opens then File(path.value) else t[fd]
  {
  }

  /**
   * A redirection whose open succeeds gets its own standard descriptor, even
   * one that was closed; every other open descriptor keeps its meaning.
   */
  lemma Redirections(t: Table, paths: seq<Option<nat>>, opens: seq<bool>, fd: nat)
    requires |paths| == |opens| == 3 && (fd in t || (fd < 3 && paths[fd].Some? && opens[fd]))
    ensures var u := Redirected(t, paths, opens);
      fd in u && u[fd] == if fd < 3 && paths[fd].Some? && opens[fd] then File(paths[fd].value) else t[fd]
  {
    hide Redirect;
    var t1 := Redirect(t, paths[0], opens[0], 0);
    var t2 := Redirect(t1, paths[1], opens[1], 1);
    if fd in t || fd == 0 {
      RedirectOne(t, paths[0], opens[0], 0, fd);
    }
    if fd in t1 || fd == 1 {
      RedirectOne(t1, paths[1], opens[1], 1, fd);
    }
    RedirectOne(t2, paths[2], opens[2], 2, fd);
  }
}
