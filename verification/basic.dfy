/** The line dispatcher and RUN driver of Basic/Basic.cpp. Reading input lines, printing
    and exiting are left to the caller: each entry point returns the new session and what
    processLine ended with. The tokenizer is external, so a line arrives with the two
    tokens the dispatcher looks at; statement construction and execution are empty stubs in
    Basic/statement.cpp and arrive as parameters. */
module Interpreter {
  import opened Results
  import opened Digits
  import opened Statements
  import opened ProgramStore

  /** The variable bindings of EvalState. */
  type Env = map<string, int>

  datatype Session = Session(program: Program, state: Env)

  /** The token classes of the scanner's getTokenType. */
  datatype TokenType = WordToken | NumberToken | OtherToken

  datatype Lexeme = Lexeme(kind: TokenType, text: string)

  /** How processLine ended: normally, with an error message reported, or by exiting. */
  datatype Reply = Done | Reported(error: Error) | Quit

  /** The outcome of executing one statement: the new bindings and the cursor as the
      statement left it, or the error it raised. */
  datatype Step = Stepped(state: Env, cursor: int) | Threw(error: Error)

  /** Statement construction from the tokens after the keyword. */
  type Construct = StmtKind -> Result<Statement>

  /** Statement execution against the bindings and the store. */
  type Execute = (Statement, Program, Env) -> Step

  /** Why the RUN loop stopped. */
  datatype RunEnd = Halted | StepFailed(error: Error) | MissingStatement(line: int) | OutOfFuel

  /** The commands processLine recognises by comparing the whole line. */
  const Commands: set<string> := {"QUIT", "CLEAR", "HELP", "LIST", "RUN"}

  /** isValidNumber: the line-number token is non-empty and all decimal digits. */
  method IsValidNumber(input: string) returns (ok: bool)
    ensures ok <==> ValidNumber(input)
  {
    if |input| == 0 {
      return false;
    }
    var i := 0;
    while i < |input|
      invariant 0 <= i <= |input|
      invariant forall j :: 0 <= j < i ==> IsDigit(input[j])
    {
      if !IsDigit(input[i]) {
        return false;
      }
      i := i + 1;
    }
    return true;
  }

  /** The statement keywords of a numbered line and the variant each one builds. */
  function KeywordKind(keyword: string): (r: Option<StmtKind>)
    ensures r.Some? <==> keyword in {"REM", "LET", "PRINT", "INPUT", "GOTO", "IF", "END"}
    ensures r == Some(Rem) <==> keyword == "REM"
    ensures r == Some(Let) <==> keyword == "LET"
    ensures r == Some(Print) <==> keyword == "PRINT"
    ensures r == Some(Input) <==> keyword == "INPUT"
    ensures r == Some(Goto) <==> keyword == "GOTO"
    ensures r == Some(If) <==> keyword == "IF"
    ensures r == Some(End) <==> keyword == "END"
  {
    match keyword
    case "REM" => Some(Rem)
    case "LET" => Some(Let)
    case "PRINT" => Some(Print)
    case "INPUT" => Some(Input)
    case "GOTO" => Some(Goto)
    case "IF" => Some(If)
    case "END" => Some(End)
    case _ => None
  }

  /** The numbered-line branch of processLine once the line number `n` has been read:
      `keyword` is the next token ("" when the line ends there). */
  function EnterNumberedLine(p: Program, line: string, n: nat, keyword: string, construct: Construct): (r: (Program, Reply))
    requires Valid(p)
    ensures Valid(r.0)
    ensures AllParsed(p) ==> AllParsed(r.0)
    ensures r.1 != Quit
    // an empty remainder deletes the line and adds nothing
    ensures keyword == "" ==> r == (RemoveSourceLine(p, n), Done)
    // an unknown keyword or a failed construction reports and leaves the store alone
    ensures r.1.Reported? ==> r.0 == p
    ensures keyword != "" && KeywordKind(keyword).None? ==> r.1 == Reported(SyntaxError)
    ensures KeywordKind(keyword).Some? && construct(KeywordKind(keyword).value).Fail? ==>
              r.1 == Reported(construct(KeywordKind(keyword).value).error)
    // a constructed statement is stored together with the whole line text
    ensures KeywordKind(keyword).Some? && construct(KeywordKind(keyword).value).Ok? ==>
              && r.1 == Done
              && GetSourceLine(r.0, n) == line
              && GetParsedStatement(r.0, n) == Some(construct(KeywordKind(keyword).value).value)
              && (forall m :: m != n ==> GetSourceLine(r.0, m) == GetSourceLine(p, m))
              && (forall m :: m != n ==> GetParsedStatement(r.0, m) == GetParsedStatement(p, m))
              && (forall m :: m != n ==> (m in r.0.index <==> m in p.index))
              && r.0.current == p.current
  {
    match KeywordKind(keyword)
    case None =>
      if keyword == "" then (RemoveSourceLine(p, n), Done) else (p, Reported(SyntaxError))
    case Some(kind) =>
      match construct(kind)
      case Fail(e) => (p, Reported(e))
      case Ok(st) =>
        var added := AddSourceLine(p, n, line);
        // setParsedStatement cannot fail: the line was just added
        var stored := SetParsedStatement(added, n, st);
        (stored.value, Done)
  }

  /** Execution that never fails and never moves the cursor. */
  ghost predicate Passive(exec: Execute) {
    forall st, q, e :: exec(st, q, e).Stepped? && exec(st, q, e).cursor == q.current
  }

  /** The line the RUN loop goes to once statements have left the cursors `cursors`:
      the first line at the start, afterwards nextLine() of the last cursor left. */
  function Upcoming(p0: Program, cursors: seq<int>): int
    requires Valid(p0)
  {
    if |cursors| == 0 then GetFirstLineNumber(p0) else NextLine(p0.(current := cursors[|cursors| - 1]))
  }

  /** The statements of lines `trace` have run in turn: each line is where the cursors
      left so far lead, and statement i ran with the cursor on its own line and bindings
      `envs[i]`, leaving bindings `envs[i + 1]` and cursor `cursors[i]`. When `trace` is
      one longer than `cursors`, the last statement has not stepped (it raised). */
  ghost predicate Executed(p0: Program, s0: Env, exec: Execute, trace: seq<int>, cursors: seq<int>, envs: seq<Env>)
    requires Valid(p0)
  {
    && |cursors| <= |trace| <= |cursors| + 1
    && |envs| == |cursors| + 1 && envs[0] == s0
    && (forall i :: 0 <= i < |trace| ==> VisitedAt(p0, trace, cursors, i))
    && (forall i :: 0 <= i < |cursors| ==> SteppedAt(p0, exec, trace, cursors, envs, i))
  }

  /** Statement i ran on the line the cursors left by the statements before it lead to,
      and that line has a statement. */
  ghost predicate VisitedAt(p0: Program, trace: seq<int>, cursors: seq<int>, i: int)
    requires Valid(p0)
  {
    && 0 <= i < |trace| && i <= |cursors|
    && trace[i] == Upcoming(p0, cursors[..i]) && trace[i] != NoLine && trace[i] in p0.parsed
  }

  /** Statement i ran with the cursor on its line and bindings `envs[i]`, and stepped to
      bindings `envs[i + 1]` and cursor `cursors[i]`. */
  ghost predicate SteppedAt(p0: Program, exec: Execute, trace: seq<int>, cursors: seq<int>, envs: seq<Env>, i: int) {
    && 0 <= i < |cursors| && i < |trace| && i + 1 < |envs| && trace[i] in p0.parsed
    && exec(p0.parsed[trace[i]], p0.(current := trace[i]), envs[i]) == Stepped(envs[i + 1], cursors[i])
  }

  /** Everything a RUN of `p0` from bindings `s0` can end with: the statements executed,
      the final store and bindings, and why the loop stopped. */
  ghost predicate RunOutcome(p0: Program, s0: Env, exec: Execute, fuel: nat,
                             p: Program, s: Env, trace: seq<int>, cursors: seq<int>, envs: seq<Env>, end: RunEnd)
    requires Valid(p0)
  {
    && Executed(p0, s0, exec, trace, cursors, envs)
    && |trace| <= fuel
    && s == envs[|cursors|]
    && (end.StepFailed? <==> |trace| == |cursors| + 1)
    && match end
       case Halted =>
         Upcoming(p0, cursors) == NoLine && p == p0.(current := NoLine)
       case StepFailed(e) =>
         var last := trace[|cursors|];
         last in p0.parsed && exec(p0.parsed[last], p0.(current := last), s) == Threw(e) && p == p0.(current := last)
       case MissingStatement(line) =>
         && line == Upcoming(p0, cursors) && line != NoLine && line !in p0.parsed
         && |trace| < fuel && p == p0.(current := line)
       case OutOfFuel =>
         var line := Upcoming(p0, cursors);
         |trace| == fuel && line != NoLine && p == p0.(current := line)
  }

  /** Statement i of a run: its line is where the earlier cursors lead, and it stepped
      from bindings `envs[i]` to `envs[i + 1]`, leaving cursor `cursors[i]`. */
  lemma ExecutedAt(p0: Program, s0: Env, exec: Execute, trace: seq<int>, cursors: seq<int>, envs: seq<Env>, i: nat)
    requires Valid(p0) && Executed(p0, s0, exec, trace, cursors, envs) && i < |cursors|
    ensures trace[i] == Upcoming(p0, cursors[..i]) && trace[i] != NoLine && trace[i] in p0.parsed
    ensures exec(p0.parsed[trace[i]], p0.(current := trace[i]), envs[i]) == Stepped(envs[i + 1], cursors[i])
    ensures SteppedAt(p0, exec, trace, cursors, envs, i)
  {
    assert VisitedAt(p0, trace, cursors, i) && SteppedAt(p0, exec, trace, cursors, envs, i);
  }

  /** A statement that steps extends the run by its line, its cursor and its bindings. */
  lemma ExecutedStep(p0: Program, s0: Env, exec: Execute, trace: seq<int>, cursors: seq<int>, envs: seq<Env>,
                     line: int, c: int, s: Env)
    requires Valid(p0) && Executed(p0, s0, exec, trace, cursors, envs) && |trace| == |cursors|
    requires line == Upcoming(p0, cursors) && line != NoLine && line in p0.parsed
    requires exec(p0.parsed[line], p0.(current := line), envs[|cursors|]) == Stepped(s, c)
    ensures Executed(p0, s0, exec, trace + [line], cursors + [c], envs + [s])
  {
    var t, cs, es := trace + [line], cursors + [c], envs + [s];
    forall i | 0 <= i < |t|
      ensures VisitedAt(p0, t, cs, i)
    {
      assert cs[..i] == cursors[..i];
      if i < |trace| {
        assert VisitedAt(p0, trace, cursors, i);
      } else {
        assert cursors[..i] == cursors;
      }
    }
    forall i | 0 <= i < |cs|
      ensures SteppedAt(p0, exec, t, cs, es, i)
    {
      if i < |cursors| {
        assert SteppedAt(p0, exec, trace, cursors, envs, i);
      }
    }
  }

  /** A statement that raises extends the run by its line only. */
  lemma ExecutedThrow(p0: Program, s0: Env, exec: Execute, trace: seq<int>, cursors: seq<int>, envs: seq<Env>, line: int)
    requires Valid(p0) && Executed(p0, s0, exec, trace, cursors, envs) && |trace| == |cursors|
    requires line == Upcoming(p0, cursors) && line != NoLine && line in p0.parsed
    ensures Executed(p0, s0, exec, trace + [line], cursors, envs)
  {
    var t := trace + [line];
    forall i | 0 <= i < |t|
      ensures VisitedAt(p0, t, cursors, i)
    {
      if i < |trace| {
        assert VisitedAt(p0, trace, cursors, i);
      } else {
        assert cursors[..i] == cursors;
      }
    }
    forall i | 0 <= i < |cursors|
      ensures SteppedAt(p0, exec, t, cursors, envs, i)
    {
      assert SteppedAt(p0, exec, trace, cursors, envs, i);
    }
  }

  /** The RUN loop: start at the first line, execute its statement, continue at the line
      after the cursor as the statement left it, until -1 or the first error. `fuel`
      bounds the number of statements executed; `trace` lists the lines executed,
      `cursors` the cursor each completed statement left and `envs` the bindings before
      the first statement and after each completed one. */
  method Run(p0: Program, s0: Env, exec: Execute, fuel: nat)
    returns (p: Program, s: Env, trace: seq<int>, cursors: seq<int>, envs: seq<Env>, end: RunEnd)
    requires Valid(p0)
    ensures RunOutcome(p0, s0, exec, fuel, p, s, trace, cursors, envs, end)
  {
    trace, cursors, envs := [], [], [s0];
    s := s0;
    var line := GetFirstLineNumber(p0);
    p := SetCurrentLine(p0, line);
    while line != NoLine
      invariant p == p0.(current := line)
      invariant line == Upcoming(p0, cursors)
      invariant |trace| <= fuel && |trace| == |cursors|
      invariant Executed(p0, s0, exec, trace, cursors, envs) && s == envs[|cursors|]
      decreases fuel - |trace|
    {
      if |trace| == fuel {
        end := OutOfFuel;
        return;
      }
      var st := GetParsedStatement(p, line);
      if st.None? {
        // Basic.cpp prints SYNTAX ERROR and then dereferences the null statement
        end := MissingStatement(line);
        return;
      }
      var step := exec(st.value, p, s);
      assert step == exec(p0.parsed[line], p0.(current := line), envs[|cursors|]);
      if step.Threw? {
        ExecutedThrow(p0, s0, exec, trace, cursors, envs, line);
        trace := trace + [line];
        end := StepFailed(step.error);
        return;
      }
      ExecutedStep(p0, s0, exec, trace, cursors, envs, line, step.cursor, step.state);
      trace, cursors, envs := trace + [line], cursors + [step.cursor], envs + [step.state];
      s := step.state;
      line := NextLine(p0.(current := step.cursor));
      p := SetCurrentLine(p, line);
    }
    end := Halted;
  }

  /** One passive step keeps the run in index order. */
  lemma AdvanceInOrder(p0: Program, trace: seq<int>, line: int, q: Program)
    requires Valid(p0) && NoLine !in p0.source
    requires InOrder(p0, trace, line) && line != NoLine
    requires q.source == p0.source && q.index == p0.index && q.current == line
    ensures Valid(q)
    ensures InOrder(p0, trace + [line], NextLine(q))
  {
    var k := |trace|;
    assert line == p0.index[k];
    assert line in p0.source;
    NextOfIndexed(q, k);
    PrefixSnoc(p0.index, k + 1);
  }

  /** The lines run so far are the first |trace| index entries and `line` is the next. */
  ghost predicate InOrder(p0: Program, trace: seq<int>, line: int) {
    && |trace| <= |p0.index|
    && trace == p0.index[..|trace|]
    && line == if |trace| < |p0.index| then p0.index[|trace|] else NoLine
  }

  /** The loop only ever stands on stored lines. */
  lemma UpcomingStored(p0: Program, cursors: seq<int>)
    requires Valid(p0)
    ensures Upcoming(p0, cursors) != NoLine ==> Upcoming(p0, cursors) in p0.source
  {
  }

  /** A run visits stored lines only, and when every stored line has a statement the
      null-statement end cannot happen. */
  lemma RunStaysInProgram(p0: Program, s0: Env, exec: Execute, fuel: nat,
                          p: Program, s: Env, trace: seq<int>, cursors: seq<int>, envs: seq<Env>, end: RunEnd)
    requires Valid(p0) && RunOutcome(p0, s0, exec, fuel, p, s, trace, cursors, envs, end)
    ensures forall i :: 0 <= i < |trace| ==> trace[i] in p0.source
    ensures p.source == p0.source && p.parsed == p0.parsed && p.index == p0.index
    ensures end.MissingStatement? ==> end.line in p0.source && end.line !in p0.parsed
    ensures AllParsed(p0) ==> !end.MissingStatement?
  {
    forall i | 0 <= i < |trace|
      ensures trace[i] in p0.source
    {
      assert VisitedAt(p0, trace, cursors, i);
      UpcomingStored(p0, cursors[..i]);
    }
    UpcomingStored(p0, cursors);
  }

  /** A prefix one longer is the shorter prefix and one more element. */
  lemma PrefixSnoc<T>(s: seq<T>, k: nat)
    requires 0 < k <= |s|
    ensures s[..k] == s[..k - 1] + [s[k - 1]]
  {
  }

  /** After k statements, the loop goes to nextLine() of the cursor the k-th one left. */
  lemma UpcomingAfter(p0: Program, cursors: seq<int>, k: nat)
    requires Valid(p0) && 0 < k <= |cursors|
    ensures Upcoming(p0, cursors[..k]) == NextLine(p0.(current := cursors[k - 1]))
  {
  }

  /** A passive statement leaves the cursor on its own line. */
  lemma PassiveStays(p0: Program, exec: Execute, trace: seq<int>, cursors: seq<int>, envs: seq<Env>, i: nat)
    requires Passive(exec) && SteppedAt(p0, exec, trace, cursors, envs, i)
    ensures cursors[i] == trace[i]
  {
    var q := p0.(current := trace[i]);
    assert exec(p0.parsed[trace[i]], q, envs[i]).cursor == q.current;
  }

  /** With statements that leave the cursor alone, the first k statements are those of
      the first k indexed lines and the loop then stands on the next one. */
  lemma {:induction false} PassivePrefix(p0: Program, s0: Env, exec: Execute,
                                         trace: seq<int>, cursors: seq<int>, envs: seq<Env>, k: nat)
    requires Valid(p0) && NoLine !in p0.source && Passive(exec)
    requires Executed(p0, s0, exec, trace, cursors, envs) && k <= |cursors|
    ensures InOrder(p0, trace[..k], Upcoming(p0, cursors[..k]))
    decreases k
  {
    if k == 0 {
      assert trace[..0] == [] && cursors[..0] == [];
      EmptyIndex(p0);
    } else {
      PassivePrefix(p0, s0, exec, trace, cursors, envs, k - 1);
      ExecutedAt(p0, s0, exec, trace, cursors, envs, k - 1);
      var line := trace[k - 1];
      assert InOrder(p0, trace[..k - 1], line);
      PassiveStays(p0, exec, trace, cursors, envs, k - 1);
      AdvanceInOrder(p0, trace[..k - 1], line, p0.(current := line));
      PrefixSnoc(trace, k);
      UpcomingAfter(p0, cursors, k);
    }
  }

  /** With statements that never raise and never move the cursor, and enough fuel, RUN
      executes every stored line exactly once, in ascending order, and halts. */
  lemma PassiveRunInOrder(p0: Program, s0: Env, exec: Execute, fuel: nat,
                          p: Program, s: Env, trace: seq<int>, cursors: seq<int>, envs: seq<Env>, end: RunEnd)
    requires Valid(p0) && RunOutcome(p0, s0, exec, fuel, p, s, trace, cursors, envs, end)
    requires Passive(exec) && AllParsed(p0) && NoLine !in p0.source && fuel >= |p0.index|
    ensures end == Halted && trace == p0.index
  {
    var k := |cursors|;
    PassivePrefix(p0, s0, exec, trace, cursors, envs, k);
    assert cursors[..k] == cursors;
    var line := Upcoming(p0, cursors);
    assert line != NoLine ==> line in p0.index;
    assert trace[..k] == trace;
  }

  /** Two runs from the same store and bindings agree statement by statement for as long
      as both go. */
  lemma {:induction false} ExecutedAgree(p0: Program, s0: Env, exec: Execute,
                                         tA: seq<int>, cA: seq<int>, eA: seq<Env>,
                                         tB: seq<int>, cB: seq<int>, eB: seq<Env>, k: nat)
    requires Valid(p0) && Executed(p0, s0, exec, tA, cA, eA) && Executed(p0, s0, exec, tB, cB, eB)
    requires k <= |cA| && k <= |cB|
    ensures cA[..k] == cB[..k] && eA[k] == eB[k]
    decreases k
  {
    if k > 0 {
      var i := k - 1;
      ExecutedAgree(p0, s0, exec, tA, cA, eA, tB, cB, eB, i);
      ExecutedAt(p0, s0, exec, tA, cA, eA, i);
      ExecutedAt(p0, s0, exec, tB, cB, eB, i);
      PrefixSnoc(cA, k);
      PrefixSnoc(cB, k);
    }
  }

  /** One turn of the RUN loop as a reference: after statements have left the cursors
      `cursors` and the bindings `s`, the loop stops here with the given end, or goes on
      (None). */
  function Stop(p0: Program, exec: Execute, fuel: nat, cursors: seq<int>, s: Env): Option<RunEnd>
    requires Valid(p0)
  {
    var line := Upcoming(p0, cursors);
    if line == NoLine then Some(Halted)
    else if |cursors| == fuel then Some(OutOfFuel)
    else if line !in p0.parsed then Some(MissingStatement(line))
    else match exec(p0.parsed[line], p0.(current := line), s)
      case Threw(e) => Some(StepFailed(e))
      case Stepped(_, _) => None
  }

  /** A run ends where the reference turn says it stops. */
  lemma StoppedRun(p0: Program, s0: Env, exec: Execute, fuel: nat,
                   p: Program, s: Env, trace: seq<int>, cursors: seq<int>, envs: seq<Env>, end: RunEnd)
    requires Valid(p0) && RunOutcome(p0, s0, exec, fuel, p, s, trace, cursors, envs, end)
    ensures Stop(p0, exec, fuel, cursors, s) == Some(end)
  {
    if end.StepFailed? {
      assert VisitedAt(p0, trace, cursors, |cursors|);
      assert cursors[..|cursors|] == cursors;
    }
  }

  /** Every turn a run completes is one where the reference turn goes on. */
  lemma ContinuedRun(p0: Program, s0: Env, exec: Execute, fuel: nat,
                     trace: seq<int>, cursors: seq<int>, envs: seq<Env>, k: nat)
    requires Valid(p0) && Executed(p0, s0, exec, trace, cursors, envs) && |trace| <= fuel
    requires k < |cursors|
    ensures Stop(p0, exec, fuel, cursors[..k], envs[k]) == None
  {
    ExecutedAt(p0, s0, exec, trace, cursors, envs, k);
    assert |cursors[..k]| == k < fuel;
  }

  /** A run that stops after fewer completed statements than another cannot have stopped. */
  lemma ShorterRunImpossible(p0: Program, s0: Env, exec: Execute, fuel: nat,
                             pA: Program, sA: Env, tA: seq<int>, cA: seq<int>, eA: seq<Env>, endA: RunEnd,
                             pB: Program, sB: Env, tB: seq<int>, cB: seq<int>, eB: seq<Env>, endB: RunEnd)
    requires Valid(p0)
    requires RunOutcome(p0, s0, exec, fuel, pA, sA, tA, cA, eA, endA)
    requires RunOutcome(p0, s0, exec, fuel, pB, sB, tB, cB, eB, endB)
    ensures |cA| >= |cB|
  {
    if |cA| < |cB| {
      var k := |cA|;
      ExecutedAgree(p0, s0, exec, tA, cA, eA, tB, cB, eB, k);
      assert cA[..k] == cA;
      StoppedRun(p0, s0, exec, fuel, pA, sA, tA, cA, eA, endA);
      ContinuedRun(p0, s0, exec, fuel, tB, cB, eB, k);
    }
  }

  /** RUN is deterministic: the outcome is fully fixed by the store, the bindings, the
      statement semantics and the fuel. */
  lemma RunOutcomeUnique(p0: Program, s0: Env, exec: Execute, fuel: nat,
                         pA: Program, sA: Env, tA: seq<int>, cA: seq<int>, eA: seq<Env>, endA: RunEnd,
                         pB: Program, sB: Env, tB: seq<int>, cB: seq<int>, eB: seq<Env>, endB: RunEnd)
    requires Valid(p0)
    requires RunOutcome(p0, s0, exec, fuel, pA, sA, tA, cA, eA, endA)
    requires RunOutcome(p0, s0, exec, fuel, pB, sB, tB, cB, eB, endB)
    ensures pA == pB && sA == sB && tA == tB && cA == cB && eA == eB && endA == endB
  {
    ShorterRunImpossible(p0, s0, exec, fuel, pA, sA, tA, cA, eA, endA, pB, sB, tB, cB, eB, endB);
    ShorterRunImpossible(p0, s0, exec, fuel, pB, sB, tB, cB, eB, endB, pA, sA, tA, cA, eA, endA);
    var k := |cA|;
    ExecutedAgree(p0, s0, exec, tA, cA, eA, tB, cB, eB, k);
    assert cA[..k] == cA && cB[..k] == cB;
    StoppedRun(p0, s0, exec, fuel, pA, sA, tA, cA, eA, endA);
    StoppedRun(p0, s0, exec, fuel, pB, sB, tB, cB, eB, endB);
    forall i | 0 <= i <= k
      ensures eA[i] == eB[i]
    {
      ExecutedAgree(p0, s0, exec, tA, cA, eA, tB, cB, eB, i);
    }
    forall i | 0 <= i < |tA|
      ensures tA[i] == tB[i]
    {
      assert VisitedAt(p0, tA, cA, i) && VisitedAt(p0, tB, cB, i);
    }
  }

  /** What processLine reports once RUN stops: the message of a statement that raised,
      SYNTAX ERROR for a line without a statement, nothing otherwise. */
  function RunReply(end: RunEnd): Reply {
    match end
    case StepFailed(e) => Reported(e)
    case MissingStatement(_) => Reported(SyntaxError)
    case _ => Done
  }

  /** processLine: the whole-line commands, then a numbered line, then a statement to run
      at once. `first` is the line's first token and `keyword` the token after a line
      number ("" when the line ends there). */
  method ProcessLine(sess: Session, line: string, first: Lexeme, keyword: string,
                     construct: Construct, exec: Execute, fuel: nat)
    returns (next: Session, reply: Reply)
    requires Valid(sess.program)
    ensures Valid(next.program)
    // dispatch keeps every stored line paired with its statement
    ensures AllParsed(sess.program) ==> AllParsed(next.program)
    ensures reply == Quit <==> line == "QUIT"
    ensures line in {"QUIT", "CLEAR"} ==> next == Session(Clear(sess.program), map[])
    ensures line == "CLEAR" ==> reply == Done
    ensures line in {"HELP", "LIST"} ==> next == sess && reply == Done
    // RUN runs the stored program from the current bindings
    ensures line == "RUN" ==>
              exists trace, cursors, envs, end ::
                && RunOutcome(sess.program, sess.state, exec, fuel, next.program, next.state, trace, cursors, envs, end)
                && reply == RunReply(end)
    // RUN and immediate statements leave the stored lines alone
    ensures line == "RUN" || (line !in Commands && first.kind == WordToken) ==>
              && next.program.source == sess.program.source
              && next.program.parsed == sess.program.parsed
              && next.program.index == sess.program.index
    // a malformed line number is a syntax error and leaves everything alone
    ensures line !in Commands && first.kind == NumberToken && !ValidNumber(first.text) ==>
              next == sess && reply == Reported(SyntaxError)
    ensures line !in Commands && first.kind == NumberToken && ValidNumber(first.text) ==>
              && (next.program, reply) == EnterNumberedLine(sess.program, line, Value(first.text), keyword, construct)
              && next.state == sess.state
    // LET, PRINT and INPUT as the first word are built and executed at once
    ensures line !in Commands && first.kind == WordToken && first.text !in {"LET", "PRINT", "INPUT"} ==>
              next == sess && reply == Reported(SyntaxError)
    ensures line !in Commands && first.kind == WordToken && first.text in {"LET", "PRINT", "INPUT"} ==>
              var built := construct(KeywordKind(first.text).value);
              && (built.Fail? ==> next == sess && reply == Reported(built.error))
              && (built.Ok? ==>
                    match exec(built.value, sess.program, sess.state)
                    case Threw(e) => next == sess && reply == Reported(e)
                    case Stepped(s, cursor) => next == Session(SetCurrentLine(sess.program, cursor), s) && reply == Done)
    ensures line !in Commands && first.kind == OtherToken ==> next == sess && reply == Reported(SyntaxError)
  {
    var program, state := sess.program, sess.state;
    if line == "QUIT" {
      return Session(Clear(program), map[]), Quit;
    } else if line == "CLEAR" {
      return Session(Clear(program), map[]), Done;
    } else if line == "HELP" || line == "LIST" {
      // both only print
      return sess, Done;
    } else if line == "RUN" {
      var p, s, trace, cursors, envs, end := Run(program, state, exec, fuel);
      RunStaysInProgram(program, state, exec, fuel, p, s, trace, cursors, envs, end);
      return Session(p, s), RunReply(end);
    }
    if first.kind == NumberToken {
      var valid := IsValidNumber(first.text);
      if !valid {
        return sess, Reported(SyntaxError);
      }
      var entered := EnterNumberedLine(program, line, Value(first.text), keyword, construct);
      return Session(entered.0, state), entered.1;
    } else if first.kind == WordToken {
      if first.text in {"LET", "PRINT", "INPUT"} {
        var kind := KeywordKind(first.text).value;
        match construct(kind)
        case Fail(e) =>
          return sess, Reported(e);
        case Ok(st) =>
          match exec(st, program, state)
          case Threw(e) =>
            return sess, Reported(e);
          case Stepped(s, cursor) =>
            return Session(SetCurrentLine(program, cursor), s), Done;
      }
      return sess, Reported(SyntaxError);
    } else {
      return sess, Reported(SyntaxError);
    }
  }
}
