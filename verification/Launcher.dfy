/** The launcher as it runs: system calls that change the tables of the
    processes in place, one step of one process at a time. */
module Launcher {
  import opened Wrappers
  import opened Pipeline

  class Kernel {
    var shell: Shell
    var outer: Table
    var procs: seq<Proc>
    var pipes: nat

    ghost function View(): State
      reads this
    {
      State(shell, outer, procs, pipes)
    }

    constructor (outer: Table)
      ensures View() == Start(outer)
    {
      this.shell, this.outer, this.procs, this.pipes := Ready, outer, [], 0;
    }

    /** sys_pipe: two lowest free descriptors of process `k`, or an error. */
    method SysPipe(k: nat, ok: bool) returns (r: nat, w: nat)
      requires k < |procs|
      modifies this`procs, this`pipes
      ensures ok ==> r !in old(procs[k].fds) && w !in old(procs[k].fds) && r < w && r == Lowest(old(procs[k].fds), 0)
      ensures |procs| == |old(procs)|
      ensures ok ==> PipeCall(old(procs[k].fds), old(pipes)) == Piped(procs[k].fds, r, w)
      ensures procs == if ok then old(procs)[k := old(procs[k]).(fds := procs[k].fds)] else old(procs)
      ensures pipes == if ok then old(pipes) + 1 else old(pipes)
    {
      r, w := 0, 0;
      if ok {
        r := Lowest(procs[k].fds, 0);
        var t := procs[k].fds[r := ReadEnd(pipes)];
        w := Lowest(t, 0);
        procs := procs[k := procs[k].(fds := t[w := WriteEnd(pipes)])];
        pipes := pipes + 1;
      }
    }

    method SysDup2(k: nat, from: nat, to: nat)
      requires k < |procs|
      modifies this`procs
      ensures procs == old(procs)[k := old(procs[k]).(fds := Dup2(old(procs[k].fds), from, to))]
    {
      if from in procs[k].fds {
        procs := procs[k := procs[k].(fds := procs[k].fds[to := procs[k].fds[from]])];
      }
    }

    method SysClose(k: nat, fd: nat)
      requires k < |procs|
      modifies this`procs
      ensures procs == old(procs)[k := old(procs[k]).(fds := Close(old(procs[k].fds), fd))]
    {
      procs := procs[k := procs[k].(fds := procs[k].fds - {fd})];
    }

    /** sys_fork: the child copies its parent's table. */
    method SysFork(k: nat, ok: bool)
      requires k < |procs|
      modifies this`procs
      ensures procs == if ok then old(procs) + [old(procs[k]).(parent := Some(k))] else old(procs)
    {
      if ok {
        procs := procs + [procs[k].(parent := Some(k))];
      }
    }

    method SysExit(k: nat)
      requires k < |procs|
      modifies this`procs
      ensures procs == old(procs)[k := old(procs[k]).(pc := Exited, fds := map[])]
    {
      procs := procs[k := procs[k].(pc := Exited, fds := map[])];
    }

    method Goto(k: nat, pc: Pc)
      requires k < |procs|
      modifies this`procs
      ensures procs == old(procs)[k := old(procs[k]).(pc := pc)]
    {
      procs := procs[k := procs[k].(pc := pc)];
    }

    /** exec_recur_noret up to the fork, in process `k`. */
    method Enter(k: nat, ok: bool)
      requires k < |procs| && procs[k].pc.Recur?
      modifies this`procs, this`pipes
      ensures View() == ProcStep(old(View()), k, ok)
    {
      if procs[k].cur == 0 {
        Goto(k, Running);
      } else {
        var r, w := SysPipe(k, ok);
        if ok {
          procs := procs[k := procs[k].(r := r, w := w)];
          Goto(k, Forking);
        } else {
          SysExit(k);
        }
      }
    }

    /** The fork and the branches taken by parent and child. */
    method Fork(k: nat, ok: bool)
      requires k < |procs| && procs[k].pc.Forking?
      modifies this`procs
      ensures View() == ProcStep(old(View()), k, ok)
    {
      SysFork(k, ok);
      if ok {
        Goto(k, Dup(Parent));
        Goto(|procs| - 1, Dup(Child));
      } else {
        SysExit(k);
      }
    }

    /** The three calls after the fork. */
    method Rearrange(k: nat)
      requires k < |procs| && (procs[k].pc.Dup? || procs[k].pc.CloseRead? || procs[k].pc.CloseWrite?)
      modifies this`procs
      ensures forall ok :: View() == ProcStep(old(View()), k, ok)
    {
      var p := procs[k];
      match p.pc {
        case Dup(side) =>
          if side.Child? {
            SysDup2(k, p.w, 1);
          } else {
            SysDup2(k, p.r, 0);
          }
          Goto(k, CloseRead(side));
        case CloseRead(side) =>
          SysClose(k, p.r);
          Goto(k, CloseWrite(side));
        case CloseWrite(side) =>
          SysClose(k, p.w);
          if side.Child? {
            procs := procs[k := procs[k].(cur := p.cur - 1)];
            Goto(k, Recur);
          } else {
            Goto(k, Running);
          }
      }
    }

    /** One scheduled step: it does what the transition function says. */
    method Move(n: nat, c: Choice)
      modifies this
      ensures View() == Step(old(View()), n, c)
    {
      hide PipeCall;
      if c.who.None? {
        if shell.Ready? {
          if c.ok {
            shell := Waiting;
            procs := procs + [Proc(None, n - 1, Recur, 0, 0, outer)];
          } else {
            shell := Failed;
          }
        }
      } else if c.who.value < |procs| {
        var k := c.who.value;
        match procs[k].pc {
          case Recur => Enter(k, c.ok);
          case Forking => Fork(k, c.ok);
          case Running =>
            assert procs[k := procs[k]] == procs;
          case Exited =>
            assert procs[k := procs[k]] == procs;
          case _ => Rearrange(k);
        }
      }
    }

    /** exec_job under a schedule, from the shell's table to a wired pipeline. */
    method ExecJob(n: nat, cs: seq<Choice>)
      requires n > 0 && View() == Start(outer) && Plain(outer)
      modifies this
      ensures View() == Run(old(outer), n, cs)
      ensures Complete(View()) ==> (Wired(View(), n) <==> n == 1 || (0 in outer && 1 in outer))
      ensures AllOk(cs) && Busy(old(outer), n, cs) ==> (Complete(View()) <==> |cs| == 8 * n - 6)
    {
      ghost var t := outer;
      assert cs[..0] == [];
      for i := 0 to |cs|
        invariant View() == Run(t, n, cs[..i])
      {
        Move(n, cs[i]);
        assert cs[..i + 1][..i] == cs[..i];
      }
      assert cs[..|cs|] == cs;
      RunKeeps(t, n, cs);
      if Complete(View()) {
        PipelineWired(t, n, cs);
      }
      if AllOk(cs) && Busy(t, n, cs) {
        PipelineRuns(t, n, cs);
      }
    }
  }
}
