/** tlibc/sh.c at work: words copied into a shared buffer, jobs that point into
    it, and the loop that cuts a line into commands. */
module Shell {
  import opened Wrappers
  import opened ShellSpec

  /** char buf[3545] of the first job, which serves all of them. */
  const BUFFER: nat := 3545
  const JOBS: nat := 4
  const ARGS: nat := 63

  /** struct job, its pointers as offsets into the shared buffer. */
  datatype JobSlot =
    JobSlot(stdin: Option<nat>, stdout: Option<nat>, stderr: Option<nat>, exe: Option<nat>, argv: seq<nat>)

  const EMPTY: JobSlot := JobSlot(None, None, None, None, [])

  // ----- C strings -----

  /** The string at `off` of `b` is `w`. */
  ghost predicate StringAt(b: string, off: nat, w: string) {
    off + |w| < |b| && b[off..off + |w|] == w && b[off + |w|] == NUL && NUL !in w
  }

  lemma StringChar(b: string, off: nat, w: string, k: nat)
    requires StringAt(b, off, w) && k <= |w|
    ensures b[off + k] == (if k < |w| then w[k] else NUL) && (b[off + k] == NUL <==> k == |w|)
  {
    if k < |w| {
      assert b[off..off + |w|][k] == b[off + k];
    }
  }

  lemma StringStays(b: string, c: string, off: nat, w: string)
    requires StringAt(b, off, w) && |b| <= |c| && c[..|b|] == b
    ensures StringAt(c, off, w)
  {
    assert c[off..off + |w|] == b[off..off + |w|];
    assert c[..|b|][off + |w|] == c[off + |w|];
  }

  method Contains(s: string, ch: char) returns (found: bool)
    ensures found <==> ch == NUL || ch in s
  {
    if ch == NUL {
      return true;
    }
    for i := 0 to |s|
      invariant ch !in s[..i]
    {
      if s[i] == ch {
        return true;
      }
    }
    return false;
  }

  /** A plain char as an int: signed, as on x86. */
  function CharValue(c: char): int {
    if 128 <= c as int < 256 then c as int - 256 else c as int
  }

  /** The character of a C string at `k`, its terminating zero included. */
  function CharAt(u: string, k: nat): char {
    if k < |u| then u[k] else NUL
  }

  /** The difference at the first position where two strings differ, zero included. */
  function Difference(u: string, v: string): int {
    if u != [] && v != [] && u[0] == v[0] then Difference(u[1..], v[1..])
    else CharValue(CharAt(u, 0)) - CharValue(CharAt(v, 0))
  }

  lemma {:induction false} NoDifference(u: string, v: string)
    requires NUL !in u && NUL !in v
    ensures Difference(u, v) == 0 <==> u == v
    decreases |u|
  {
    if u != [] && v != [] && u[0] == v[0] {
      NoDifference(u[1..], v[1..]);
      assert u == [u[0]] + u[1..] && v == [v[0]] + v[1..];
    }
  }

  method Strcmp(s: string, i: nat, t: string, j: nat, ghost u: string, ghost v: string) returns (r: int)
    requires StringAt(s, i, u) && StringAt(t, j, v)
    ensures r == Difference(u, v) && (r == 0 <==> u == v)
  {
    var k := 0;
    StringChar(s, i, u, 0);
    StringChar(t, j, v, 0);
    NoDifference(u, v);
    assert u[0..] == u && v[0..] == v;
    while s[i + k] != NUL && t[j + k] != NUL
      invariant k <= |u| && k <= |v| && Difference(u[k..], v[k..]) == Difference(u, v)
      invariant s[i + k] == CharAt(u, k) && t[j + k] == CharAt(v, k)
      invariant (s[i + k] == NUL <==> k == |u|) && (t[j + k] == NUL <==> k == |v|)
      decreases |u| - k
    {
      if s[i + k] != t[j + k] {
        r := 0;
        r := r + CharValue(s[i + k]);
        r := r - CharValue(t[j + k]);
        return;
      }
      assert u[k..][1..] == u[k + 1..] && v[k..][1..] == v[k + 1..];
      k := k + 1;
      StringChar(s, i, u, k);
      StringChar(t, j, v, k);
    }
    return CharValue(s[i + k]) - CharValue(t[j + k]);
  }

  /** Strcmp(old, lit) == 0 */
  method Is(buf: array<char>, off: nat, lit: string, ghost w: string) returns (same: bool)
    requires StringAt(buf[..], off, w) && NUL !in lit
    ensures same <==> w == lit
  {
    assert StringAt(lit + [NUL], 0, lit);
    var r := Strcmp(buf[..], off, lit + [NUL], 0, w, lit);
    same := r == 0;
  }

  /** The copy loop and the terminating zero. */
  method RecordWord(buf: array<char>, cp: nat, cmd: string, from: nat, to: nat) returns (end: nat)
    requires from <= to <= |cmd| && cp + (to - from) < buf.Length && NUL !in cmd[from..to]
    modifies buf
    ensures end == cp + (to - from) + 1 && StringAt(buf[..][..end], cp, cmd[from..to])
    ensures buf[..][..cp] == old(buf[..][..cp])
    ensures forall k :: end <= k < buf.Length ==> buf[k] == old(buf[k])
  {
    end := cp;
    for k := from to to
      invariant end == cp + (k - from)
      invariant forall x :: cp <= x < end ==> buf[x] == cmd[from + (x - cp)]
      invariant forall x :: 0 <= x < buf.Length && !(cp <= x < end) ==> buf[x] == old(buf[x])
    {
      buf[end] := cmd[k];
      end := end + 1;
    }
    buf[end] := NUL;
    end := end + 1;
    Recorded(buf[..], cp, end, cmd[from..to]);
  }

  lemma Recorded(b: string, cp: nat, end: nat, w: string)
    requires end == cp + |w| + 1 <= |b| && b[end - 1] == NUL && NUL !in w
    requires forall x :: cp <= x < end - 1 ==> b[x] == w[x - cp]
    ensures StringAt(b[..end], cp, w)
  {
    assert b[..end][cp..cp + |w|] == w;
  }

  // ----- jobs that point into the buffer -----

  ghost predicate Names(b: string, p: Option<nat>, w: Option<string>) {
    (p.Some? <==> w.Some?) && (p.Some? && w.Some? ==> StringAt(b, p.value, w.value))
  }

  ghost predicate Stores(b: string, slot: JobSlot, job: Job) {
    && Names(b, slot.stdin, job.stdin) && Names(b, slot.stdout, job.stdout) && Names(b, slot.stderr, job.stderr)
    && |slot.argv| == |job.argv| && (forall i :: 0 <= i < |job.argv| ==> StringAt(b, slot.argv[i], job.argv[i]))
    && slot.exe == if slot.argv == [] then None else Some(slot.argv[0])
  }

  ghost predicate Stored(b: string, slots: seq<JobSlot>, jobs: seq<Job>) {
    && |jobs| <= |slots| && (forall j :: 0 <= j < |jobs| ==> Stores(b, slots[j], jobs[j]))
    && forall j :: |jobs| <= j < |slots| ==> slots[j] == EMPTY
  }

  lemma StoresMore(b: string, c: string, slot: JobSlot, job: Job)
    requires Stores(b, slot, job) && |b| <= |c| && c[..|b|] == b
    ensures Stores(c, slot, job)
  {
    hide StringAt;
    if slot.stdin.Some? {
      StringStays(b, c, slot.stdin.value, job.stdin.value);
    }
    if slot.stdout.Some? {
      StringStays(b, c, slot.stdout.value, job.stdout.value);
    }
    if slot.stderr.Some? {
      StringStays(b, c, slot.stderr.value, job.stderr.value);
    }
    forall i | 0 <= i < |job.argv|
      ensures StringAt(c, slot.argv[i], job.argv[i])
    {
      StringStays(b, c, slot.argv[i], job.argv[i]);
    }
  }

  /** Words that are stored stay as they are when the buffer grows. */
  lemma StoredMore(b: string, c: string, slots: seq<JobSlot>, jobs: seq<Job>)
    requires Stored(b, slots, jobs) && |b| <= |c| && c[..|b|] == b
    ensures Stored(c, slots, jobs)
  {
    hide Stores;
    forall j | 0 <= j < |jobs|
      ensures Stores(c, slots[j], jobs[j])
    {
      StoresMore(b, c, slots[j], jobs[j]);
    }
  }

  /** What a token does to the slot it falls on. */
  function PutSlot(s: JobSlot, f: Flags, p: nat, operator: bool): JobSlot {
    var t := s.(stdin := if f.prein then Some(p) else s.stdin, stdout := if f.preout then Some(p) else s.stdout,
                stderr := if f.preerr then Some(p) else s.stderr);
    if f == NO_FLAGS && !operator then t.(exe := if s.argv == [] then Some(p) else s.exe, argv := s.argv + [p]) else t
  }

  lemma PutStores(b: string, s: JobSlot, j: Job, f: Flags, p: nat, w: string)
    requires Stores(b, s, j) && StringAt(b, p, w)
    ensures Stores(b, PutSlot(s, f, p, Operator(w)), Put(j, f, w))
  {
    hide StringAt;
  }

  /** The token in the buffer at `p` is a pipe, a redirection, a target or an argument. */
  method TakeToken(slots: array<JobSlot>, cur: nat, f: Flags, buf: array<char>, p: nat, ghost b: string,
                   ghost st: Parse, ghost w: string)
    returns (cur': nat, f': Flags)
    requires slots.Length == JOBS && st.jobs != [] && Stored(b, slots[..], st.jobs) && cur == |st.jobs| - 1
    requires f == st.flags
    requires StringAt(b, p, w) && StringAt(buf[..], p, w) && |Take(st, w).jobs| <= JOBS
    modifies slots
    ensures Stored(b, slots[..], Take(st, w).jobs) && cur' == |Take(st, w).jobs| - 1 && f' == Take(st, w).flags
  {
    hide StringAt, Stores, Stored, Put, Take;
    TakeShape(st, w);
    var argument := true;
    cur', f' := cur, f;
    var pipe := Is(buf, p, "|", w);
    if pipe {
      argument := false;
      cur' := cur' + 1;
    }
    ghost var was, before := slots[..], slots[cur'];
    if f'.prein {
      f', argument := f'.(prein := false), false;
      slots[cur'] := slots[cur'].(stdin := Some(p));
    }
    if f'.preout {
      f', argument := f'.(preout := false), false;
      slots[cur'] := slots[cur'].(stdout := Some(p));
    }
    if f'.preerr {
      f', argument := f'.(preerr := false), false;
      slots[cur'] := slots[cur'].(stderr := Some(p));
    }
    var less := Is(buf, p, "<", w);
    if less {
      f', argument := f'.(prein := true), false;
    }
    var greater := Is(buf, p, ">", w);
    if greater {
      f', argument := f'.(preout := true), false;
    }
    var errors := Is(buf, p, "2>", w);
    if errors {
      f', argument := f'.(preerr := true), false;
    }
    if argument {
      if slots[cur'].argv == [] {
        slots[cur'] := slots[cur'].(exe := Some(p));
      }
      slots[cur'] := slots[cur'].(argv := slots[cur'].argv + [p]);
    }
    assert slots[..] == was[cur' := PutSlot(before, f, p, Operator(w))];
    TokenStored(b, was, st, p, w);
  }

  lemma TakeShape(st: Parse, w: string)
    requires st.jobs != []
    ensures |Take(st, w).jobs| == (if w == "|" then |st.jobs| + 1 else |st.jobs|)
    ensures Take(st, w).flags == Flags(w == "<", w == ">", w == "2>")
  {
  }

  lemma TokenStored(b: string, slots: seq<JobSlot>, st: Parse, p: nat, w: string)
    requires st.jobs != [] && Stored(b, slots, st.jobs) && StringAt(b, p, w) && |Take(st, w).jobs| <= |slots|
    ensures var c := |Take(st, w).jobs| - 1;
      Stored(b, slots[c := PutSlot(slots[c], st.flags, p, Operator(w))], Take(st, w).jobs)
  {
    hide StringAt, Stores, Put, PutSlot;
    EmptyStores(b);
    var jobs := if w == "|" then st.jobs + [NO_JOB] else st.jobs;
    var c := |jobs| - 1;
    PutStores(b, slots[c], jobs[c], st.flags, p, w);
  }

  lemma EmptyStores(b: string)
    ensures Stores(b, EMPTY, NO_JOB)
  {
  }

  // ----- the scan of one command -----

  method SkipBlank(s: string, i: nat) returns (next: nat)
    requires i <= |s|
    ensures i <= next <= |s| && AllBlank(s[i..next]) && (next < |s| ==> !Blank(s[next]))
  {
    next := i;
    while next < |s|
      invariant i <= next <= |s| && forall k :: i <= k < next ==> Blank(s[k])
    {
      var blank := Contains(BLANK, s[next]);
      if !blank {
        break;
      }
      next := next + 1;
    }
  }

  method SkipWord(s: string, i: nat) returns (next: nat)
    requires i <= |s|
    ensures i <= next <= |s| && NoBlank(s[i..next]) && (next < |s| ==> Blank(s[next]))
  {
    next := i;
    while next < |s|
      invariant i <= next <= |s| && forall k :: i <= k < next ==> !Blank(s[k])
    {
      var blank := Contains(BLANK, s[next]);
      if blank {
        break;
      }
      next := next + 1;
    }
  }

  /** One round of the scan, on the words that are left. */
  lemma NextWord(s: string, i: nat, j: nat, k: nat)
    requires i <= j <= k <= |s| && AllBlank(s[i..j]) && NoBlank(s[j..k]) && (k < |s| ==> Blank(s[k]))
    requires j < |s| ==> !Blank(s[j])
    ensures j < k ==> Words(s[i..]) == [s[j..k]] + Words(s[k..])
    ensures j == k ==> k == |s| && Words(s[i..]) == Words(s[k..])
  {
    hide Words;
    assert s[i..][..j - i] == s[i..j] && s[i..][j - i..] == s[j..];
    SkipBlanks(s[i..], j - i);
    if j < k {
      assert s[j..][..k - j] == s[j..k] && s[j..][k - j..] == s[k..];
      TakeWord(s[j..], k - j);
    }
  }

  /** The command fits the fixed sizes of the job table. */
  ghost predicate Roomy(s: string) {
    |s| < BUFFER && |Parsed(s)| <= JOBS && forall j :: 0 <= j < |Parsed(s)| ==> |Parsed(s)[j].argv| <= ARGS
  }

  /** Printed pipelines of up to four jobs with up to 63 arguments each fit. */
  lemma PrintedRoomy(cmds: seq<seq<Item>>, gaps: seq<string>)
    requires 1 <= |cmds| <= JOBS && Printable(cmds) && GapsOk(gaps) && |gaps| == |LineTokens(cmds)| + 1
    requires |Spaced(LineTokens(cmds), gaps)| < BUFFER && forall i :: 0 <= i < |cmds| ==> |Arguments(cmds[i])| <= ARGS
    ensures Roomy(Spaced(LineTokens(cmds), gaps))
  {
    ParseUndoesPrint(cmds, gaps);
  }

  lemma BlanksAreNotWords(s: string)
    requires NoBlank(s)
    ensures NUL !in s
  {
  }

  /** Memset, then the scan: the slots point at the words of the parsed jobs. */
  method Tokenize(slots: array<JobSlot>, buf: array<char>, s: string) returns (jobcnt: nat)
    requires slots.Length == JOBS && buf.Length == BUFFER && Roomy(s)
    modifies slots, buf
    ensures Stored(buf[..], slots[..], Parsed(s)) && jobcnt == |Parsed(s)|
    ensures forall k :: |s| + 1 <= k < BUFFER ==> buf[k] == NUL
  {
    hide StringAt, Stores, Words, Take, TakeAll, Blank, AllBlank, NoBlank;
    Reset(slots, buf);
    ghost var st := Parse([NO_JOB], NO_FLAGS);
    ghost var goal := TakeAll(st, Words(s));
    var i: nat, cp: nat, cur: nat, f := 0, 0, 0, NO_FLAGS;
    assert s[0..] == s;
    EmptyStores(buf[..][..0]);
    while i < |s|
      invariant i <= |s| && st.jobs != [] && TakeAll(st, Words(s[i..])) == goal
      invariant cp <= i + 1 && (cp <= i || i == |s| || Blank(s[i]))
      invariant Stored(buf[..][..cp], slots[..], st.jobs) && cur == |st.jobs| - 1 && f == st.flags
      invariant forall j :: 0 <= j < |st.jobs| ==> |st.jobs[j].argv| <= ARGS
      invariant forall k :: cp <= k < BUFFER ==> buf[k] == NUL
    {
      var from := SkipBlank(s, i);
      var next := SkipWord(s, from);
      NextWord(s, i, from, next);
      if next > from {
        Advance(st, s[from..next], Words(s[next..]));
        cp, cur, f := AddWord(slots, buf, cp, cur, f, s, from, next, st);
        st := Take(st, s[from..next]);
      }
      i := next;
    }
    AllTaken(st, s, i);
    StoredMore(buf[..][..cp], buf[..], slots[..], st.jobs);
    jobcnt := cur + 1;
  }

  /** Record a word behind the others and let it act. */
  method AddWord(slots: array<JobSlot>, buf: array<char>, cp: nat, cur: nat, f: Flags, s: string, from: nat,
                 next: nat, ghost st: Parse)
    returns (cp': nat, cur': nat, f': Flags)
    requires slots.Length == JOBS && from < next <= |s| && NoBlank(s[from..next]) && cp + (next - from) < buf.Length
    requires st.jobs != [] && Stored(buf[..][..cp], slots[..], st.jobs) && cur == |st.jobs| - 1 && f == st.flags
    requires |Take(st, s[from..next]).jobs| <= JOBS && forall k :: cp <= k < buf.Length ==> buf[k] == NUL
    modifies slots, buf
    ensures cp' == cp + (next - from) + 1 <= buf.Length && forall k :: cp' <= k < buf.Length ==> buf[k] == NUL
    ensures Stored(buf[..][..cp'], slots[..], Take(st, s[from..next]).jobs)
    ensures cur' == |Take(st, s[from..next]).jobs| - 1 && f' == Take(st, s[from..next]).flags
  {
    hide StringAt, Stores, Take;
    BlanksAreNotWords(s[from..next]);
    ghost var b := buf[..][..cp];
    cp' := RecordWord(buf, cp, s, from, next);
    ghost var c := buf[..][..cp'];
    assert c[..cp] == b;
    StoredMore(b, c, slots[..], st.jobs);
    StringStays(c, buf[..], cp, s[from..next]);
    cur', f' := TakeToken(slots, cur, f, buf, cp, c, st, s[from..next]);
  }

  /** Printing and storing: the slots of a printed line hold exactly the jobs that were meant. */
  method TokenizePrinted(slots: array<JobSlot>, buf: array<char>, s: string, ghost cmds: seq<seq<Item>>,
                         ghost gaps: seq<string>)
    returns (jobcnt: nat)
    requires slots.Length == JOBS && buf.Length == BUFFER && |s| < BUFFER
    requires 1 <= |cmds| <= JOBS && Printable(cmds) && GapsOk(gaps) && |gaps| == |LineTokens(cmds)| + 1
    requires s == Spaced(LineTokens(cmds), gaps) && forall i :: 0 <= i < |cmds| ==> |Arguments(cmds[i])| <= ARGS
    modifies slots, buf
    ensures Stored(buf[..], slots[..], AllMeant(cmds)) && jobcnt == |cmds|
  {
    hide Stored, Roomy, Parsed;
    PrintedRoomy(cmds, gaps);
    ParseUndoesPrint(cmds, gaps);
    jobcnt := Tokenize(slots, buf, s);
  }

  lemma Advance(st: Parse, w: string, ws: seq<string>)
    requires st.jobs != []
    ensures TakeAll(st, [w] + ws) == TakeAll(Take(st, w), ws) && |Take(st, w).jobs| <= |TakeAll(st, [w] + ws).jobs|
    ensures forall j :: 0 <= j < |Take(st, w).jobs| ==>
      |Take(st, w).jobs[j].argv| <= |TakeAll(st, [w] + ws).jobs[j].argv|
  {
    assert ([w] + ws)[1..] == ws;
    TakeAllGrows(Take(st, w), ws);
  }

  lemma AllTaken(st: Parse, s: string, i: nat)
    requires st.jobs != [] && i == |s|
    ensures TakeAll(st, Words(s[i..])) == st
  {
  }

  method Reset(slots: array<JobSlot>, buf: array<char>)
    modifies slots, buf
    ensures forall j :: 0 <= j < slots.Length ==> slots[j] == EMPTY
    ensures forall k :: 0 <= k < buf.Length ==> buf[k] == NUL
  {
    for j := 0 to slots.Length
      invariant forall x :: 0 <= x < j ==> slots[x] == EMPTY
    {
      slots[j] := EMPTY;
    }
    for k := 0 to buf.Length
      invariant forall x :: 0 <= x < k ==> buf[x] == NUL
      invariant forall x :: 0 <= x < slots.Length ==> slots[x] == EMPTY
    {
      buf[k] := NUL;
    }
  }

  // ----- one command -----

  /** What system_single does next, its strings as pointers. */
  datatype Verdict = Nothing | NullExe | Chdir(path: Option<nat>) | Exit | Pid | Launch(jobcnt: nat)

  /** The verdict stands for the action. */
  ghost predicate Agrees(v: Verdict, a: Action, b: string, slots: seq<JobSlot>) {
    match v
    case Nothing => a.Nothing?
    case NullExe => a.NullExe?
    case Chdir(p) => a.Chdir? && Names(b, p, a.path)
    case Exit => a.Exit?
    case Pid => a.Pid?
    case Launch(n) => a.Launch? && n == |a.jobs| && Stored(b, slots, a.jobs)
  }

  method SystemSingle(slots: array<JobSlot>, buf: array<char>, cmd: string, end: nat) returns (v: Verdict)
    requires slots.Length == JOBS && buf.Length == BUFFER && end <= |cmd| && Roomy(cmd[..end])
    modifies slots, buf
    ensures Agrees(v, if cmd == "" || cmd[0] == NUL then Action.Nothing else Act(cmd[..end]), buf[..], slots[..])
    ensures v.Nothing? <==> cmd == "" || cmd[0] == NUL
    ensures !v.Nothing? ==> Decided(v, LeadingArguments(cmd[..end]), buf[..])
  {
    hide Act, LeadingArguments;
    if cmd == "" || cmd[0] == NUL {
      return Verdict.Nothing;
    }
    var jobcnt := Tokenize(slots, buf, cmd[..end]);
    v := Dispatch(slots, buf, jobcnt, Parsed(cmd[..end]));
    ChosenIsAct(cmd[..end]);
    VerdictDecided(v, cmd[..end], buf[..], slots[..]);
  }

  lemma ChosenIsAct(s: string)
    ensures Act(s) == Chosen(Parsed(s))
  {
  }

  /** The arguments of the first command decide the verdict. */
  ghost predicate Decided(v: Verdict, a: seq<string>, b: string) {
    && (v.NullExe? <==> a == [])
    && (v.Exit? <==> a != [] && (a[0] == "exit" || a[0] == "q"))
    && (v.Pid? <==> a != [] && a[0] == "pid")
    && (v.Chdir? <==> a != [] && a[0] == "cd")
    && (v.Chdir? ==> if |a| > 1 then v.path.Some? && StringAt(b, v.path.value, a[1]) else v.path.None?)
  }

  lemma VerdictDecided(v: Verdict, s: string, b: string, slots: seq<JobSlot>)
    requires Agrees(v, Act(s), b, slots) && !v.Nothing?
    ensures Decided(v, LeadingArguments(s), b)
  {
    hide Act, Stored, StringAt, LeadingArguments;
    ActIff(s);
  }

  /** Built-in commands first, then the launcher. */
  method Dispatch(slots: array<JobSlot>, buf: array<char>, jobcnt: nat, ghost jobs: seq<Job>) returns (v: Verdict)
    requires slots.Length == JOBS && jobs != [] && Stored(buf[..], slots[..], jobs) && jobcnt == |jobs|
    ensures Agrees(v, Chosen(jobs), buf[..], slots[..])
  {
    hide StringAt;
    assert Stores(buf[..], slots[0], jobs[0]);
    ghost var argv := jobs[0].argv;
    if slots[0].exe.None? {
      return Verdict.NullExe;
    }
    var exe := slots[0].exe.value;
    var found := Is(buf, exe, "cd", argv[0]);
    if found {
      return Verdict.Chdir(if |slots[0].argv| > 1 then Some(slots[0].argv[1]) else None);
    }
    found := Is(buf, exe, "exit", argv[0]);
    if found {
      return Verdict.Exit;
    }
    found := Is(buf, exe, "q", argv[0]);
    if found {
      return Verdict.Exit;
    }
    found := Is(buf, exe, "pid", argv[0]);
    if found {
      return Verdict.Pid;
    }
    return Verdict.Launch(jobcnt);
  }

  // ----- a line of commands -----

  lemma FirstSegment(s: string, n: nat)
    requires n <= |s| && s != [] && Whole(s[..n]) && (n < |s| ==> Separator(s[n]))
    ensures Segments(s) == [s[..n]] + if n < |s| then Segments(s[n + 1..]) else []
  {
    SegmentLengthIs(s, n);
  }

  /** Every command that is reached fits. */
  ghost predicate AllRoomy(segs: seq<string>) {
    forall i :: 0 <= i < |Reached(segs)| ==> Roomy(Reached(segs)[i])
  }

  lemma FirstReached(seg: string, segs: seq<string>)
    requires AllRoomy([seg] + segs)
    ensures Roomy(seg)
    ensures Reached([seg] + segs) == [seg] + if Act(seg).Exit? || Act(seg).NullExe? then [] else Reached(segs)
    ensures !Act(seg).Exit? && !Act(seg).NullExe? ==> AllRoomy(segs)
  {
    hide Roomy, Act;
    var all := Reached([seg] + segs);
    assert ([seg] + segs)[1..] == segs && ([seg] + segs)[..1] == [seg];
    assert Roomy(all[0]);
    if !Act(seg).Exit? && !Act(seg).NullExe? {
      assert forall i :: 0 <= i < |Reached(segs)| ==> Reached(segs)[i] == all[i + 1];
    }
  }

  /** What a command adds to the status: the launcher's answer, or nothing for a built-in. */
  function Answer(seg: string, launched: bv32): bv32 {
    if Act(seg).Launch? then launched else 0
  }

  function Or(a: bv32, b: bv32): bv32 {
    a | b
  }

  /** The answers of all commands, or-ed together; the launcher answers call `i` with `answers[i]`. */
  function Status(calls: seq<string>, answers: seq<bv32>): bv32
    requires |calls| <= |answers|
  {
    if calls == [] then 0
    else var l := |calls| - 1; Or(Status(calls[..l], answers), Answer(calls[l], answers[l]))
  }

  /** `x` has one of the bits of `m`. */
  predicate Has(x: bv32, m: bv32) {
    x & m != 0
  }

  lemma NeitherHas(x: bv32, y: bv32, m: bv32)
    requires x & m == 0 && y & m == 0
    ensures (x | y) & m == 0
  {
  }

  lemma OneHas(x: bv32, y: bv32, m: bv32)
    requires (x | y) & m == 0
    ensures x & m == 0 && y & m == 0
  {
  }

  lemma OrHas(x: bv32, y: bv32, m: bv32)
    ensures Has(Or(x, y), m) <==> Has(x, m) || Has(y, m)
  {
    if !Has(x, m) && !Has(y, m) {
      NeitherHas(x, y, m);
    }
    if !Has(Or(x, y), m) {
      OneHas(x, y, m);
    }
  }

  lemma ZeroHas(m: bv32)
    ensures !Has(0, m)
  {
  }

  /** Call `i` was launched and answered with one of the bits of `m`. */
  predicate Answers(calls: seq<string>, answers: seq<bv32>, m: bv32, i: nat)
    requires i < |calls| <= |answers|
  {
    Act(calls[i]).Launch? && Has(answers[i], m)
  }

  /** The status has a bit set if and only if some launched command's answer has it. */
  lemma {:induction false} StatusBits(calls: seq<string>, answers: seq<bv32>, m: bv32)
    requires |calls| <= |answers|
    ensures Has(Status(calls, answers), m) <==> exists i :: 0 <= i < |calls| && Answers(calls, answers, m, i)
    decreases |calls|
  {
    hide Act, Or, Has;
    ZeroHas(m);
    if calls != [] {
      var l := |calls| - 1;
      var pre := calls[..l];
      StatusBits(pre, answers, m);
      OrHas(Status(pre, answers), Answer(calls[l], answers[l]), m);
      assert Has(Answer(calls[l], answers[l]), m) <==> Answers(calls, answers, m, l);
      assert forall i :: 0 <= i < l ==> (Answers(pre, answers, m, i) <==> Answers(calls, answers, m, i));
      if i :| 0 <= i < |calls| && Answers(calls, answers, m, i) {
        assert i < l ==> Answers(pre, answers, m, i);
      }
    }
  }

  /** The loop of system: each maximal separator-free segment, in order, goes to system_single. */
  method System(slots: array<JobSlot>, buf: array<char>, cmd: string, answers: seq<bv32>)
    returns (calls: seq<string>, ret: bv32)
    requires slots.Length == JOBS && buf.Length == BUFFER && NUL !in cmd
    requires AllRoomy(Segments(cmd)) && |Reached(Segments(cmd))| <= |answers|
    modifies slots, buf
    ensures calls == Reached(Segments(cmd)) && ret == Status(Reached(Segments(cmd)), answers)
  {
    hide Roomy, Segments, Act, Reached, AllRoomy, Whole, Status, Or, Stored, Names;
    calls, ret := [], 0;
    NoStatus(answers);
    var it := 0;
    assert cmd[0..] == cmd;
    while it < |cmd|
      invariant it <= |cmd|
      invariant calls + Reached(Segments(cmd[it..])) == Reached(Segments(cmd)) && ret == Status(calls, answers)
      invariant AllRoomy(Segments(cmd[it..]))
    {
      var next := SegmentEnd(cmd, it);
      NextSegment(cmd, it, next);
      FirstReached(cmd[it..next], Segments(cmd[if next < |cmd| then next + 1 else next..]));
      var v := SystemSingle(slots, buf, cmd[it..], next - it);
      if v.Launch? {
        ret := Or(ret, answers[|calls|]);
      }
      StatusMore(calls, cmd[it..next], answers);
      calls := calls + [cmd[it..next]];
      if v.Exit? || v.NullExe? {
        return;
      }
      it := if next < |cmd| then next + 1 else next;
    }
    NoSegments(cmd[it..]);
  }

  lemma NoStatus(answers: seq<bv32>)
    ensures Status([], answers) == 0
  {
  }

  lemma OrZero(x: bv32)
    ensures Or(x, 0) == x
  {
  }

  lemma StatusMore(calls: seq<string>, seg: string, answers: seq<bv32>)
    requires |calls| < |answers|
    ensures Status(calls + [seg], answers) ==
      if Act(seg).Launch? then Or(Status(calls, answers), answers[|calls|]) else Status(calls, answers)
  {
    hide Act, Or;
    var more := calls + [seg];
    assert more[..|calls|] == calls && more[|calls|] == seg;
    OrZero(Status(calls, answers));
  }

  lemma NoSegments(s: string)
    requires s == []
    ensures Segments(s) == [] && Reached(Segments(s)) == []
  {
  }

  /** The scan for the next separator or the end of the line. */
  method SegmentEnd(cmd: string, it: nat) returns (next: nat)
    requires it <= |cmd| && NUL !in cmd
    ensures it <= next <= |cmd| && Whole(cmd[it..next]) && (next < |cmd| ==> Separator(cmd[next]))
  {
    next := it;
    while next < |cmd|
      invariant it <= next <= |cmd| && forall k :: it <= k < next ==> !Separator(cmd[k])
    {
      var stop := Contains(SEPARATORS, cmd[next]);
      if stop {
        break;
      }
      next := next + 1;
    }
  }

  lemma NextSegment(cmd: string, it: nat, next: nat)
    requires it <= next <= |cmd| && it < |cmd| && Whole(cmd[it..next]) && (next < |cmd| ==> Separator(cmd[next]))
    ensures Segments(cmd[it..]) == [cmd[it..next]] + Segments(cmd[if next < |cmd| then next + 1 else next..])
    ensures cmd[it..][..next - it] == cmd[it..next]
  {
    hide Segments;
    assert cmd[it..][..next - it] == cmd[it..next];
    FirstSegment(cmd[it..], next - it);
    if next < |cmd| {
      assert cmd[it..][next - it + 1..] == cmd[next + 1..];
    } else {
      NoSegments(cmd[next..]);
    }
  }
}
