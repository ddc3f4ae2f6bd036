/** The command language of tlibc/sh.c: words, redirections, pipes and the
    separators between commands, independent of how they are stored. */
module ShellSpec {
  import opened Wrappers

  const NUL: char := '\0'
  const BLANK: string := " \t\r\n"
  const SEPARATORS: string := "\n;&"

  predicate Blank(c: char) {
    c == NUL || c in BLANK
  }

  predicate AllBlank(s: string) {
    forall i :: 0 <= i < |s| ==> Blank(s[i])
  }

  predicate NoBlank(s: string) {
    forall i :: 0 <= i < |s| ==> !Blank(s[i])
  }

  /** The four blanks and NUL part words; newline, semicolon and ampersand part commands; four words are operators. */
  lemma CharactersAre(c: char, w: string)
    ensures Blank(c) <==> c == ' ' || c == '\t' || c == '\r' || c == '\n' || c == '\0'
    ensures Separator(c) <==> c == '\n' || c == ';' || c == '&'
    ensures Operator(w) <==> w in {"|", "<", ">", "2>"}
  {
  }

  // ----- words -----

  /** Length of the leading run without a blank. */
  function WordLength(s: string): (n: nat)
    ensures n <= |s| && NoBlank(s[..n]) && (n < |s| ==> Blank(s[n]))
  {
    if s == [] || Blank(s[0]) then 0 else 1 + WordLength(s[1..])
  }

  /** The maximal runs without a blank, in order. */
  function Words(s: string): seq<string>
    decreases |s|
  {
    if s == [] then []
    else if Blank(s[0]) then Words(s[1..])
    else [s[..WordLength(s)]] + Words(s[WordLength(s)..])
  }

  lemma {:induction false} SkipBlanks(s: string, k: nat)
    requires k <= |s| && AllBlank(s[..k])
    ensures Words(s) == Words(s[k..])
    decreases k
  {
    if k > 0 {
      assert s[..k][0] == s[0];
      forall i | 0 <= i < k - 1
        ensures Blank(s[1..][i])
      {
        assert s[..k][i + 1] == s[1..][i];
      }
      SkipBlanks(s[1..], k - 1);
      assert s[1..][k - 1..] == s[k..];
    }
  }

  lemma {:induction false} WordLengthIs(s: string, k: nat)
    requires k <= |s| && NoBlank(s[..k]) && (k < |s| ==> Blank(s[k]))
    ensures WordLength(s) == k
    decreases k
  {
    if k > 0 {
      assert s[..k][0] == s[0];
      forall i | 0 <= i < k - 1
        ensures !Blank(s[1..][i])
      {
        assert s[..k][i + 1] == s[1..][i];
      }
      WordLengthIs(s[1..], k - 1);
    }
  }

  lemma TakeWord(s: string, k: nat)
    requires 0 < k <= |s| && NoBlank(s[..k]) && (k < |s| ==> Blank(s[k]))
    ensures Words(s) == [s[..k]] + Words(s[k..])
  {
    WordLengthIs(s, k);
    assert s[..k][0] == s[0];
  }

  // ----- the flag-driven parser -----

  /** One job as the parser leaves it; its executable is the first argument. */
  datatype Job = Job(stdin: Option<string>, stdout: Option<string>, stderr: Option<string>, argv: seq<string>)

  /** Which redirection the next word is the target of. */
  datatype Flags = Flags(prein: bool, preout: bool, preerr: bool)

  datatype Parse = Parse(jobs: seq<Job>, flags: Flags)

  const NO_JOB: Job := Job(None, None, None, [])
  const NO_FLAGS: Flags := Flags(false, false, false)

  predicate Operator(w: string) {
    w == "|" || w == "<" || w == ">" || w == "2>"
  }

  /** What word `w` does to job `j` under `f`. */
  function Put(j: Job, f: Flags, w: string): Job {
    var k := Job(if f.prein then Some(w) else j.stdin, if f.preout then Some(w) else j.stdout,
                 if f.preerr then Some(w) else j.stderr, j.argv);
    if f == NO_FLAGS && !Operator(w) then k.(argv := j.argv + [w]) else k
  }

  function Take(p: Parse, w: string): (q: Parse)
    requires p.jobs != []
    ensures |p.jobs| <= |q.jobs| <= |p.jobs| + 1
  {
    var jobs := if w == "|" then p.jobs + [NO_JOB] else p.jobs;
    Parse(jobs[|jobs| - 1 := Put(jobs[|jobs| - 1], p.flags, w)], Flags(w == "<", w == ">", w == "2>"))
  }

  function TakeAll(p: Parse, ws: seq<string>): (q: Parse)
    requires p.jobs != []
    ensures q.jobs != []
    decreases |ws|
  {
    if ws == [] then p else TakeAll(Take(p, ws[0]), ws[1..])
  }

  /** The jobs of one command. */
  function Parsed(s: string): (jobs: seq<Job>)
    ensures jobs != []
  {
    TakeAll(Parse([NO_JOB], NO_FLAGS), Words(s)).jobs
  }

  lemma {:induction false} TakeAllConcat(p: Parse, ws: seq<string>, us: seq<string>)
    requires p.jobs != []
    ensures TakeAll(p, ws + us) == TakeAll(TakeAll(p, ws), us)
    decreases |ws|
  {
    if ws == [] {
      assert ws + us == us;
    } else {
      assert (ws + us)[1..] == ws[1..] + us;
      TakeAllConcat(Take(p, ws[0]), ws[1..], us);
    }
  }

  /** Further words never take back a job or an argument. */
  lemma {:induction false} TakeAllGrows(p: Parse, ws: seq<string>)
    requires p.jobs != []
    ensures var q := TakeAll(p, ws);
      |p.jobs| <= |q.jobs| && forall j :: 0 <= j < |p.jobs| ==> |p.jobs[j].argv| <= |q.jobs[j].argv|
    decreases |ws|
  {
    if ws != [] {
      TakeAllGrows(Take(p, ws[0]), ws[1..]);
    }
  }

  // ----- printing -----

  /** A part of a command: an argument or a redirection. */
  datatype Item = Arg(word: string) | In(word: string) | Out(word: string) | Err(word: string)

  predicate Ordinary(w: string) {
    w != "" && NoBlank(w) && !Operator(w)
  }

  predicate Printable(cmds: seq<seq<Item>>) {
    forall i, k :: 0 <= i < |cmds| && 0 <= k < |cmds[i]| ==> Ordinary(cmds[i][k].word)
  }

  function ItemTokens(it: Item): seq<string> {
    match it
    case Arg(w) => [w]
    case In(w) => ["<", w]
    case Out(w) => [">", w]
    case Err(w) => ["2>", w]
  }

  function CmdTokens(items: seq<Item>): seq<string> {
    if items == [] then [] else CmdTokens(items[..|items| - 1]) + ItemTokens(items[|items| - 1])
  }

  function LineTokens(cmds: seq<seq<Item>>): seq<string>
    requires cmds != []
  {
    var l := |cmds| - 1;
    if l == 0 then CmdTokens(cmds[0]) else LineTokens(cmds[..l]) + ["|"] + CmdTokens(cmds[l])
  }

  /** Tokens with blanks before, between and after them. */
  function Spaced(tokens: seq<string>, gaps: seq<string>): string
    requires |gaps| == |tokens| + 1
  {
    if tokens == [] then gaps[0] else gaps[0] + tokens[0] + Spaced(tokens[1..], gaps[1..])
  }

  predicate GapsOk(gaps: seq<string>) {
    && (forall i :: 0 <= i < |gaps| ==> AllBlank(gaps[i]))
    && forall i :: 0 < i < |gaps| - 1 ==> gaps[i] != ""
  }

  // ----- what is meant -----

  /** The arguments, in order. */
  function Arguments(items: seq<Item>): seq<string> {
    if items == [] then []
    else Arguments(items[..|items| - 1]) + if items[|items| - 1].Arg? then [items[|items| - 1].word] else []
  }

  /** The last target of each redirection counts. */
  function Input(items: seq<Item>): Option<string> {
    if items == [] then None
    else if items[|items| - 1].In? then Some(items[|items| - 1].word) else Input(items[..|items| - 1])
  }

  function Output(items: seq<Item>): Option<string> {
    if items == [] then None
    else if items[|items| - 1].Out? then Some(items[|items| - 1].word) else Output(items[..|items| - 1])
  }

  function Errors(items: seq<Item>): Option<string> {
    if items == [] then None
    else if items[|items| - 1].Err? then Some(items[|items| - 1].word) else Errors(items[..|items| - 1])
  }

  function Meant(items: seq<Item>): Job {
    Job(Input(items), Output(items), Errors(items), Arguments(items))
  }

  // ----- parsing undoes printing -----

  lemma {:induction false} WordsOfSpaced(tokens: seq<string>, gaps: seq<string>)
    requires |gaps| == |tokens| + 1 && GapsOk(gaps)
    requires forall i :: 0 <= i < |tokens| ==> tokens[i] != "" && NoBlank(tokens[i])
    ensures Words(Spaced(tokens, gaps)) == tokens
    decreases |tokens|
  {
    var s, g := Spaced(tokens, gaps), gaps[0];
    assert s[..|g|] == g;
    SkipBlanks(s, |g|);
    if tokens == [] {
      assert s[|g|..] == [];
    } else {
      var t, rest := tokens[0], Spaced(tokens[1..], gaps[1..]);
      assert s[|g|..] == t + rest;
      assert (t + rest)[..|t|] == t && (t + rest)[|t|..] == rest;
      RestStartsBlank(tokens[1..], gaps[1..]);
      TakeWord(t + rest, |t|);
      WordsOfSpaced(tokens[1..], gaps[1..]);
    }
  }

  lemma RestStartsBlank(tokens: seq<string>, gaps: seq<string>)
    requires |gaps| == |tokens| + 1 && AllBlank(gaps[0]) && (tokens != [] ==> gaps[0] != "")
    ensures var s := Spaced(tokens, gaps); s == [] || Blank(s[0])
  {
  }

  lemma TakeItem(p: Parse, it: Item)
    requires p.jobs != [] && p.flags == NO_FLAGS && Ordinary(it.word)
    ensures var j := p.jobs[|p.jobs| - 1];
      TakeAll(p, ItemTokens(it)) == Parse(p.jobs[|p.jobs| - 1 := Done(j, it)], NO_FLAGS)
  {
    if it.Arg? {
      OneToken(p, it.word);
    } else {
      TwoTokens(p, ItemTokens(it)[0], it.word);
    }
  }

  lemma OneToken(p: Parse, w: string)
    requires p.jobs != []
    ensures TakeAll(p, [w]) == Take(p, w)
  {
    assert TakeAll(Take(p, w), []) == Take(p, w);
  }

  lemma TwoTokens(p: Parse, w: string, u: string)
    requires p.jobs != []
    ensures TakeAll(p, [w, u]) == Take(Take(p, w), u)
  {
    assert [w, u][1..] == [u];
    OneToken(Take(p, w), u);
  }

  function Done(j: Job, it: Item): Job {
    match it
    case Arg(w) => j.(argv := j.argv + [w])
    case In(w) => j.(stdin := Some(w))
    case Out(w) => j.(stdout := Some(w))
    case Err(w) => j.(stderr := Some(w))
  }

  lemma MeantStep(items: seq<Item>)
    requires items != []
    ensures Meant(items) == Done(Meant(items[..|items| - 1]), items[|items| - 1])
  {
  }

  lemma {:induction false} TakeCmd(jobs: seq<Job>, items: seq<Item>)
    requires forall k :: 0 <= k < |items| ==> Ordinary(items[k].word)
    ensures TakeAll(Parse(jobs + [NO_JOB], NO_FLAGS), CmdTokens(items)) == Parse(jobs + [Meant(items)], NO_FLAGS)
    decreases |items|
  {
    hide Take, ItemTokens;
    var p := Parse(jobs + [NO_JOB], NO_FLAGS);
    if items != [] {
      var l := |items| - 1;
      TakeCmd(jobs, items[..l]);
      TakeAllConcat(p, CmdTokens(items[..l]), ItemTokens(items[l]));
      TakeItem(Parse(jobs + [Meant(items[..l])], NO_FLAGS), items[l]);
      MeantStep(items);
    }
  }

  lemma TakePipe(jobs: seq<Job>)
    requires jobs != []
    ensures TakeAll(Parse(jobs, NO_FLAGS), ["|"]) == Parse(jobs + [NO_JOB], NO_FLAGS)
  {
    OneToken(Parse(jobs, NO_FLAGS), "|");
  }

  function AllMeant(cmds: seq<seq<Item>>): seq<Job> {
    seq(|cmds|, i requires 0 <= i < |cmds| => Meant(cmds[i]))
  }

  lemma {:induction false} TakeLine(cmds: seq<seq<Item>>)
    requires cmds != [] && Printable(cmds)
    ensures TakeAll(Parse([NO_JOB], NO_FLAGS), LineTokens(cmds)) == Parse(AllMeant(cmds), NO_FLAGS)
    decreases |cmds|
  {
    hide Take, TakeAll, CmdTokens, Meant;
    var p, l := Parse([NO_JOB], NO_FLAGS), |cmds| - 1;
    if l == 0 {
      assert [] + [NO_JOB] == [NO_JOB] && [] + [Meant(cmds[0])] == AllMeant(cmds);
      TakeCmd([], cmds[0]);
    } else {
      TakeLine(cmds[..l]);
      TakeAllConcat(p, LineTokens(cmds[..l]) + ["|"], CmdTokens(cmds[l]));
      TakeAllConcat(p, LineTokens(cmds[..l]), ["|"]);
      var js := AllMeant(cmds[..l]);
      TakePipe(js);
      TakeCmd(js, cmds[l]);
      assert js + [Meant(cmds[l])] == AllMeant(cmds);
    }
  }

  lemma {:induction false} CmdTokensPlain(items: seq<Item>, i: nat)
    requires (forall k :: 0 <= k < |items| ==> Ordinary(items[k].word)) && i < |CmdTokens(items)|
    ensures CmdTokens(items)[i] != "" && NoBlank(CmdTokens(items)[i])
    decreases |items|
  {
    var l := |items| - 1;
    var m := |CmdTokens(items[..l])|;
    if i < m {
      CmdTokensPlain(items[..l], i);
    } else {
      assert CmdTokens(items)[i] == ItemTokens(items[l])[i - m];
    }
  }

  lemma {:induction false} LineTokensPlain(cmds: seq<seq<Item>>, i: nat)
    requires cmds != [] && Printable(cmds) && i < |LineTokens(cmds)|
    ensures LineTokens(cmds)[i] != "" && NoBlank(LineTokens(cmds)[i])
    decreases |cmds|
  {
    var l := |cmds| - 1;
    if l == 0 {
      CmdTokensPlain(cmds[0], i);
    } else {
      var m := |LineTokens(cmds[..l])|;
      if i < m {
        LineTokensPlain(cmds[..l], i);
      } else if i > m {
        CmdTokensPlain(cmds[l], i - m - 1);
        assert LineTokens(cmds)[i] == CmdTokens(cmds[l])[i - m - 1];
      } else {
        assert LineTokens(cmds)[i] == "|";
      }
    }
  }

  /**
   * Parsing undoes printing: any pipeline of commands, each with arguments
   * and redirections in any order, printed with any blanks between its tokens,
   * parses to exactly the argument lists and redirections that are meant.
   */
  lemma ParseUndoesPrint(cmds: seq<seq<Item>>, gaps: seq<string>)
    requires cmds != [] && Printable(cmds) && GapsOk(gaps) && |gaps| == |LineTokens(cmds)| + 1
    ensures Parsed(Spaced(LineTokens(cmds), gaps)) == AllMeant(cmds)
  {
    forall i | 0 <= i < |LineTokens(cmds)|
      ensures LineTokens(cmds)[i] != "" && NoBlank(LineTokens(cmds)[i])
    {
      LineTokensPlain(cmds, i);
    }
    WordsOfSpaced(LineTokens(cmds), gaps);
    TakeLine(cmds);
  }

  // ----- commands on one line -----

  predicate Separator(c: char) {
    c in SEPARATORS
  }

  predicate Whole(s: string) {
    forall i :: 0 <= i < |s| ==> !Separator(s[i])
  }

  function SegmentLength(s: string): (n: nat)
    ensures n <= |s| && Whole(s[..n]) && (n < |s| ==> Separator(s[n]))
  {
    if s == [] || Separator(s[0]) then 0 else 1 + SegmentLength(s[1..])
  }

  /** The commands of a line, in order; a separator at its end starts no further one. */
  function Segments(s: string): seq<string>
    decreases |s|
  {
    if s == [] then []
    else
      var n := SegmentLength(s);
      [s[..n]] + if n < |s| then Segments(s[n + 1..]) else []
  }

  /** Segments and the separators behind them; the last segment may go without. */
  function Glue(segs: seq<string>, seps: string): string
    requires |seps| <= |segs| <= |seps| + 1
  {
    if segs == [] then [] else if seps == [] then segs[0] else segs[0] + [seps[0]] + Glue(segs[1..], seps[1..])
  }

  /** `segs` are separator-free, lie between separators, and make up the whole of `s`. */
  ghost predicate Cut(s: string, segs: seq<string>, seps: string) {
    && |seps| <= |segs| <= |seps| + 1 && Glue(segs, seps) == s
    && (forall i :: 0 <= i < |segs| ==> Whole(segs[i])) && (forall i :: 0 <= i < |seps| ==> Separator(seps[i]))
    && (|segs| == |seps| + 1 ==> segs[|seps|] != "")
  }

  lemma {:induction false} SegmentLengthIs(s: string, k: nat)
    requires k <= |s| && Whole(s[..k]) && (k < |s| ==> Separator(s[k]))
    ensures SegmentLength(s) == k
    decreases k
  {
    if k > 0 {
      assert s[..k][0] == s[0];
      forall i | 0 <= i < k - 1
        ensures !Separator(s[1..][i])
      {
        assert s[..k][i + 1] == s[1..][i];
      }
      SegmentLengthIs(s[1..], k - 1);
    }
  }

  /** There is one way only to cut a line. */
  lemma {:induction false} CutIsSegments(s: string, segs: seq<string>, seps: string)
    requires Cut(s, segs, seps)
    ensures segs == Segments(s)
    decreases |segs|
  {
    if segs != [] {
      var k := |segs[0]|;
      assert s[..k] == segs[0];
      SegmentLengthIs(s, k);
      if seps == [] {
        assert segs == [segs[0]];
      } else {
        assert s[k + 1..] == Glue(segs[1..], seps[1..]);
        CutIsSegments(s[k + 1..], segs[1..], seps[1..]);
        assert segs == [segs[0]] + segs[1..];
      }
    }
  }

  /** The separators of a line. */
  function Marks(s: string): string {
    if s == [] then [] else (if Separator(s[0]) then [s[0]] else []) + Marks(s[1..])
  }

  lemma {:induction false} MarksBehind(s: string, k: nat)
    requires k <= |s| && Whole(s[..k])
    ensures Marks(s) == Marks(s[k..])
    decreases k
  {
    if k > 0 {
      assert s[..k][0] == s[0];
      forall i | 0 <= i < k - 1
        ensures !Separator(s[1..][i])
      {
        assert s[..k][i + 1] == s[1..][i];
      }
      MarksBehind(s[1..], k - 1);
      assert s[1..][k - 1..] == s[k..];
    }
  }

  /** Every line is cut into its segments. */
  lemma {:induction false} SegmentsCut(s: string)
    ensures Cut(s, Segments(s), Marks(s))
    decreases |s|
  {
    hide Cut;
    if s == [] {
      CutNone();
    } else {
      var n := SegmentLength(s);
      MarksBehind(s, n);
      if n < |s| {
        var t := s[n + 1..];
        SegmentsCut(t);
        CutFirst(s, n, Segments(t), Marks(t));
        assert s[n..][1..] == t;
      } else {
        assert s[..n] == s && s[n..] == [] && Segments(s) == [s];
        CutOne(s);
      }
    }
  }

  lemma CutFirst(s: string, n: nat, segs: seq<string>, seps: string)
    requires n < |s| && Whole(s[..n]) && Separator(s[n]) && Cut(s[n + 1..], segs, seps)
    ensures Cut(s, [s[..n]] + segs, [s[n]] + seps)
  {
    GlueFirst(s[..n], s[n], segs, seps);
    assert s == s[..n] + [s[n]] + s[n + 1..];
  }

  lemma CutOne(s: string)
    requires s != "" && Whole(s)
    ensures Cut(s, [s], [])
  {
  }

  lemma CutNone()
    ensures Cut([], [], [])
  {
  }

  lemma GlueFirst(seg: string, sep: char, segs: seq<string>, seps: string)
    requires |seps| <= |segs| <= |seps| + 1 && Cut(Glue(segs, seps), segs, seps) && Whole(seg) && Separator(sep)
    ensures Cut(seg + [sep] + Glue(segs, seps), [seg] + segs, [sep] + seps)
  {
    assert ([seg] + segs)[1..] == segs && ([sep] + seps)[1..] == seps;
  }

  /** The segments of a line are its one cut into separator-free pieces. */
  lemma SegmentsExactly(s: string, segs: seq<string>)
    ensures segs == Segments(s) <==> exists seps :: Cut(s, segs, seps)
  {
    hide Cut, Segments;
    SegmentsCut(s);
    if seps :| Cut(s, segs, seps) {
      CutIsSegments(s, segs, seps);
    }
  }

  // ----- what a command does -----

  datatype Action = Nothing | NullExe | Chdir(path: Option<string>) | Exit | Pid | Launch(jobs: seq<Job>)

  /** A built-in command or the launch of the jobs; without a word the null executable is dereferenced. */
  function Chosen(jobs: seq<Job>): Action
    requires jobs != []
  {
    var argv := jobs[0].argv;
    if argv == [] then NullExe
    else if argv[0] == "cd" then Chdir(if |argv| > 1 then Some(argv[1]) else None)
    else if argv[0] == "exit" || argv[0] == "q" then Exit
    else if argv[0] == "pid" then Pid
    else Launch(jobs)
  }

  /** system_single on one command. */
  function Act(s: string): Action {
    Chosen(Parsed(s))
  }

  // ----- when there is no executable -----

  predicate Redirection(w: string) {
    w == "<" || w == ">" || w == "2>"
  }

  /** The position of the first pipe, or the number of words. */
  function FirstPipe(ws: seq<string>): (i: nat)
    ensures i <= |ws| && "|" !in ws[..i] && (i < |ws| ==> ws[i] == "|")
  {
    if ws == [] || ws[0] == "|" then 0 else 1 + FirstPipe(ws[1..])
  }

  /** Word `i` is an operator, or directly follows a redirection: it is no argument. */
  predicate Claimed(ws: seq<string>, i: nat)
    requires i < |ws|
  {
    Operator(ws[i]) || (i > 0 && Redirection(ws[i - 1]))
  }

  /** No word before the first pipe is an argument; `pending` says whether a redirection stands before `ws`. */
  predicate AllClaimed(ws: seq<string>, pending: bool) {
    ws == [] || ws[0] == "|" || ((pending || Operator(ws[0])) && AllClaimed(ws[1..], Redirection(ws[0])))
  }

  lemma {:induction false} AllClaimedIff(ws: seq<string>, pending: bool)
    ensures AllClaimed(ws, pending) <==>
      forall i :: 0 <= i < FirstPipe(ws) ==> Claimed(ws, i) || (i == 0 && pending)
    decreases |ws|
  {
    if ws != [] && ws[0] != "|" {
      AllClaimedIff(ws[1..], Redirection(ws[0]));
      if AllClaimed(ws, pending) {
        forall i | 0 <= i < FirstPipe(ws)
          ensures Claimed(ws, i) || (i == 0 && pending)
        {
          assert i > 0 ==> Claimed(ws[1..], i - 1) || (i == 1 && Redirection(ws[0]));
        }
      }
      if forall i :: 0 <= i < FirstPipe(ws) ==> Claimed(ws, i) || (i == 0 && pending) {
        forall i | 0 <= i < FirstPipe(ws[1..])
          ensures Claimed(ws[1..], i) || (i == 0 && Redirection(ws[0]))
        {
          assert Claimed(ws, i + 1);
        }
        assert Claimed(ws, 0) || pending;
      }
    }
  }

  lemma {:induction false} FirstJobKept(p: Parse, ws: seq<string>)
    requires |p.jobs| >= 2
    ensures TakeAll(p, ws).jobs[0] == p.jobs[0]
    decreases |ws|
  {
    if ws != [] {
      FirstJobKept(Take(p, ws[0]), ws[1..]);
    }
  }

  lemma {:induction false} FirstJobClaimed(p: Parse, ws: seq<string>)
    requires |p.jobs| == 1
    ensures TakeAll(p, ws).jobs[0].argv == [] <==> p.jobs[0].argv == [] && AllClaimed(ws, p.flags != NO_FLAGS)
    decreases |ws|
  {
    if ws != [] {
      if ws[0] == "|" {
        FirstJobKept(Take(p, ws[0]), ws[1..]);
      } else {
        FirstJobClaimed(Take(p, ws[0]), ws[1..]);
      }
    }
  }

  /** Every word before the first pipe is an operator or directly follows a redirection. */
  ghost predicate NoArgument(ws: seq<string>) {
    forall i :: 0 <= i < FirstPipe(ws) ==> Claimed(ws, i)
  }

  /** The null executable is dereferenced if and only if the words before the first pipe hold no argument. */
  lemma NullExeIff(s: string)
    ensures Act(s).NullExe? <==> NoArgument(Words(s))
  {
    FirstJobClaimed(Parse([NO_JOB], NO_FLAGS), Words(s));
    AllClaimedIff(Words(s), false);
  }

  /** Blank commands are such. */
  lemma BlankCrashes(s: string)
    requires AllBlank(s)
    ensures Act(s).NullExe?
  {
    SkipBlanks(s, |s|);
    assert s[|s|..] == [] && s[..|s|] == s;
    NullExeIff(s);
  }

  /** A line of one separator already reaches the crash. */
  lemma SeparatorCrashes()
    ensures Segments(";") == [""] && Act("").NullExe?
  {
    assert ";"[..0] == "" && ";"[1..] == [];
    BlankCrashes("");
  }

  // ----- what a command does, from its words -----

  /** The words before the first pipe that are no operators and no targets; `pending` as above. */
  function FreeWords(ws: seq<string>, pending: bool): seq<string> {
    if ws == [] || ws[0] == "|" then []
    else (if pending || Operator(ws[0]) then [] else [ws[0]]) + FreeWords(ws[1..], Redirection(ws[0]))
  }

  lemma {:induction false} FirstJobWords(p: Parse, ws: seq<string>)
    requires |p.jobs| == 1
    ensures TakeAll(p, ws).jobs[0].argv == p.jobs[0].argv + FreeWords(ws, p.flags != NO_FLAGS)
    decreases |ws|
  {
    if ws != [] {
      if ws[0] == "|" {
        FirstJobKept(Take(p, ws[0]), ws[1..]);
      } else {
        FirstJobWords(Take(p, ws[0]), ws[1..]);
      }
    }
  }

  /** The arguments of the first command of a line. */
  function LeadingArguments(s: string): seq<string> {
    FreeWords(Words(s), false)
  }

  lemma FirstArguments(s: string)
    ensures Parsed(s)[0].argv == LeadingArguments(s)
  {
    FirstJobWords(Parse([NO_JOB], NO_FLAGS), Words(s));
  }

  /** The first argument decides; any other than these six cases is launched. */
  lemma ActIff(s: string)
    ensures var a := LeadingArguments(s); var act := Act(s);
      && (act.NullExe? <==> a == [])
      && (act.Exit? <==> a != [] && (a[0] == "exit" || a[0] == "q"))
      && (act.Pid? <==> a != [] && a[0] == "pid")
      && (act.Chdir? <==> a != [] && a[0] == "cd")
      && (act.Chdir? ==> act.path == if |a| > 1 then Some(a[1]) else None)
      && (act.Launch? <==> a != [] && a[0] !in {"exit", "q", "pid", "cd"})
      && (act.Launch? ==> act.jobs == Parsed(s))
  {
    hide Parsed, LeadingArguments;
    FirstArguments(s);
  }

  /** For a printed pipeline: its first argument decides, and what is launched is what was meant. */
  lemma ActPrinted(cmds: seq<seq<Item>>, gaps: seq<string>)
    requires cmds != [] && Printable(cmds) && GapsOk(gaps) && |gaps| == |LineTokens(cmds)| + 1
    ensures var a := Arguments(cmds[0]); var act := Act(Spaced(LineTokens(cmds), gaps));
      && (act.NullExe? <==> a == [])
      && (act.Exit? <==> a != [] && (a[0] == "exit" || a[0] == "q"))
      && (act.Pid? <==> a != [] && a[0] == "pid")
      && (act.Chdir? <==> a != [] && a[0] == "cd")
      && (act.Chdir? ==> act.path == if |a| > 1 then Some(a[1]) else None)
      && (a != [] && a[0] !in {"exit", "q", "pid", "cd"} ==> act == Launch(AllMeant(cmds)))
  {
    var s := Spaced(LineTokens(cmds), gaps);
    hide Parsed, LeadingArguments, Spaced, LineTokens, Arguments;
    ParseUndoesPrint(cmds, gaps);
    FirstArguments(s);
    ActIff(s);
  }

  // ----- when an operator is a target -----

  lemma {:induction false} TakeAllFlags(p: Parse, ws: seq<string>)
    requires p.jobs != [] && ws != []
    ensures var w := ws[|ws| - 1]; TakeAll(p, ws).flags == Flags(w == "<", w == ">", w == "2>")
    decreases |ws|
  {
    if |ws| == 1 {
      OneToken(p, ws[0]);
      assert ws == [ws[0]];
    } else {
      TakeAllFlags(Take(p, ws[0]), ws[1..]);
    }
  }

  /**
   * Any word, an operator included, becomes the target of a redirection if and
   * only if the word right before it is that redirection. A pipe that does so
   * still starts a job, and it is the new job that gets the target.
   */
  lemma TargetIff(ws: seq<string>, w: string)
    requires ws != []
    ensures var p := Parse([NO_JOB], NO_FLAGS);
      var before := TakeAll(p, ws).jobs;
      var jobs := if w == "|" then before + [NO_JOB] else before;
      var after, l, v := TakeAll(p, ws + [w]).jobs, |jobs| - 1, ws[|ws| - 1];
      && |after| == |jobs| && after[..l] == jobs[..l]
      && after[l].stdin == (if v == "<" then Some(w) else jobs[l].stdin)
      && after[l].stdout == (if v == ">" then Some(w) else jobs[l].stdout)
      && after[l].stderr == (if v == "2>" then Some(w) else jobs[l].stderr)
      && after[l].argv == (if Operator(w) || Redirection(v) then jobs[l].argv else jobs[l].argv + [w])
  {
    var p := Parse([NO_JOB], NO_FLAGS);
    TakeAllConcat(p, ws, [w]);
    TakeAllFlags(p, ws);
    OneToken(TakeAll(p, ws), w);
  }

  lemma FourSpaced()
    ensures Spaced(["cat", "<", "|", "wc"], ["", " ", " ", " ", ""]) == "cat < | wc"
  {
    assert Spaced([], [""]) == "";
    assert Spaced(["wc"], [" ", ""]) == " wc";
    assert Spaced(["|", "wc"], [" ", " ", ""]) == " | wc";
    assert Spaced(["<", "|", "wc"], [" ", " ", " ", ""]) == " < | wc";
  }

  lemma FourWords()
    ensures Words("cat < | wc") == ["cat", "<", "|", "wc"]
  {
    hide Words, Spaced;
    FourSpaced();
    WordsOfSpaced(["cat", "<", "|", "wc"], ["", " ", " ", " ", ""]);
  }

  /** The pipe of this command is a file name as well. */
  lemma PipeAsTarget()
    ensures Parsed("cat < | wc") == [Job(None, None, None, ["cat"]), Job(Some("|"), None, None, ["wc"])]
  {
    FourWords();
    FourTaken();
  }

  lemma FourTaken()
    ensures TakeAll(Parse([NO_JOB], NO_FLAGS), ["cat", "<", "|", "wc"]).jobs
         == [Job(None, None, None, ["cat"]), Job(Some("|"), None, None, ["wc"])]
  {
    hide TakeAll;
    var p := Parse([NO_JOB], NO_FLAGS);
    assert ["cat", "<", "|", "wc"] == ["cat", "<"] + ["|", "wc"];
    TakeAllConcat(p, ["cat", "<"], ["|", "wc"]);
    TwoTokens(p, "cat", "<");
    var cat := Job(None, None, None, ["cat"]);
    assert Put(NO_JOB, NO_FLAGS, "cat") == cat;
    assert Take(p, "cat") == Parse([cat], NO_FLAGS);
    var q := Take(Take(p, "cat"), "<");
    assert q == Parse([cat], Flags(true, false, false));
    TwoTokens(q, "|", "wc");
    var pipe := Job(Some("|"), None, None, []);
    assert Take(q, "|") == Parse([cat, pipe], NO_FLAGS);
    assert Put(pipe, NO_FLAGS, "wc") == Job(Some("|"), None, None, ["wc"]);
  }

  /** The commands that are reached: an exit or a crash ends the line. */
  function Reached(segs: seq<string>): seq<string> {
    if segs == [] then []
    else if Act(segs[0]).Exit? || Act(segs[0]).NullExe? then segs[..1]
    else segs[..1] + Reached(segs[1..])
  }

  /** The command has no executable or leaves the shell. */
  predicate Ends(s: string) {
    LeadingArguments(s) == [] || LeadingArguments(s)[0] == "exit" || LeadingArguments(s)[0] == "q"
  }

  /** No command before `i` ends the line. */
  predicate GoesOn(segs: seq<string>, i: nat)
    requires i <= |segs|
  {
    forall j :: 0 <= j < i ==> !Ends(segs[j])
  }

  /**
   * A command is reached if and only if none before it ends the line; commands
   * behind `pid`, `cd` or a launch are reached.
   */
  lemma {:induction false} ReachedExactly(segs: seq<string>)
    ensures Reached(segs) <= segs
    ensures forall i :: 0 <= i < |segs| ==> (i < |Reached(segs)| <==> GoesOn(segs, i))
    decreases |segs|
  {
    if segs != [] {
      hide Act, Ends;
      EndsIff(segs[0]);
      if !Ends(segs[0]) {
        ReachedExactly(segs[1..]);
        ReachedBehind(segs);
      } else {
        assert Reached(segs) == segs[..1];
      }
    }
  }

  lemma EndsIff(s: string)
    ensures Ends(s) <==> Act(s).Exit? || Act(s).NullExe?
  {
    hide Act;
    ActIff(s);
  }

  lemma ReachedBehind(segs: seq<string>)
    requires segs != [] && !Ends(segs[0]) && Reached(segs) == segs[..1] + Reached(segs[1..])
    requires Reached(segs[1..]) <= segs[1..]
    requires forall i :: 0 <= i < |segs| - 1 ==> (i < |Reached(segs[1..])| <==> GoesOn(segs[1..], i))
    ensures Reached(segs) <= segs
    ensures forall i :: 0 <= i < |segs| ==> (i < |Reached(segs)| <==> GoesOn(segs, i))
  {
    hide Ends, Reached;
    var tail := segs[1..];
    forall i | 0 <= i < |segs|
      ensures i < |Reached(segs)| <==> GoesOn(segs, i)
    {
      if i > 0 {
        assert i - 1 < |Reached(tail)| <==> GoesOn(tail, i - 1);
        assert forall j :: 1 <= j < i ==> segs[j] == tail[j - 1];
        assert forall j :: 0 <= j < i - 1 ==> tail[j] == segs[j + 1];
      }
    }
  }
}
