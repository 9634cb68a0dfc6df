/** The program store of Basic/program.cpp: source text and parsed statement by line
    number, the ordered set of line numbers (a std::set, kept here as a strictly increasing
    sequence), and the current-line cursor used by RUN. Mutators are pure functions that
    return the updated store. */
module ProgramStore {
  import opened Results
  import opened Statements

  /** The "no such line" value of the line-number queries. */
  const NoLine: int := -1

  datatype Program = Program(
    source: map<int, string>,
    parsed: map<int, Statement>,
    index: seq<int>,
    current: int)

  predicate Increasing(s: seq<int>) {
    forall i, j :: 0 <= i < j < |s| ==> s[i] < s[j]
  }

  /** The representation invariant: the ordered index lists exactly the lines that have
      source text, each once, in ascending order. */
  predicate Valid(p: Program) {
    && Increasing(p.index)
    && (forall n :: n in p.index ==> n in p.source)
    && (forall n :: n in p.source ==> n in p.index)
  }

  /** A valid store is empty exactly when its index is. */
  lemma EmptyIndex(p: Program)
    requires Valid(p)
    ensures |p.index| == 0 <==> p.source == map[]
  {
    if |p.index| > 0 {
      assert p.index[0] in p.index;
    } else {
      assert forall n :: n !in p.source;
      assert p.source == map[];
    }
  }

  /** Every indexed line has a parsed statement. */
  predicate AllParsed(p: Program) {
    forall n :: n in p.index ==> n in p.parsed
  }

  /** A store holding no lines; the cursor's initial value is left to the caller. */
  function Empty(current: int): (p: Program)
    ensures Valid(p) && AllParsed(p)
    ensures p.source == map[] && p.parsed == map[] && p.index == [] && p.current == current
  {
    Program(map[], map[], [], current)
  }

  // ---------------------------------------------------------------------------
  // The ordered index
  // ---------------------------------------------------------------------------

  /** Putting in front an element below all of an increasing sequence keeps it increasing. */
  lemma ConsIncreasing(h: int, t: seq<int>)
    requires Increasing(t) && forall y :: y in t ==> h < y
    ensures Increasing([h] + t)
  {
    assert forall j :: 0 <= j < |t| ==> t[j] in t;
  }

  /** std::set::insert on the sorted sequence: no change when x is already present. */
  function Insert(s: seq<int>, x: int): (r: seq<int>)
    requires Increasing(s)
    ensures Increasing(r)
    ensures forall y :: y in r <==> y in s || y == x
    ensures x in s ==> r == s
    ensures x !in s ==> |r| == |s| + 1
  {
    if |s| == 0 then [x]
    else if x < s[0] then [x] + s
    else if x == s[0] then s
    else
      var tail := Insert(s[1..], x);
      ConsIncreasing(s[0], tail);
      [s[0]] + tail
  }

  /** std::set::erase on the sorted sequence: no change when x is absent. */
  function Erase(s: seq<int>, x: int): (r: seq<int>)
    requires Increasing(s)
    ensures Increasing(r)
    ensures forall y :: y in r <==> y in s && y != x
    ensures x !in s ==> r == s
    ensures x in s ==> |r| == |s| - 1
  {
    if |s| == 0 then s
    else if s[0] == x then s[1..]
    else
      var tail := Erase(s[1..], x);
      ConsIncreasing(s[0], tail);
      [s[0]] + tail
  }

  /** std::set::upper_bound: the position of the first element greater than k. */
  function UpperBound(s: seq<int>, k: int): (i: nat)
    requires Increasing(s)
    ensures i <= |s|
    ensures forall j :: 0 <= j < i ==> s[j] <= k
    ensures forall j :: i <= j < |s| ==> s[j] > k
  {
    if |s| == 0 || s[0] > k then 0 else 1 + UpperBound(s[1..], k)
  }

  // ---------------------------------------------------------------------------
  // The operations of Program
  // ---------------------------------------------------------------------------

  /** clear: no source text, no statements, no line numbers. The cursor is kept. */
  function Clear(p: Program): (r: Program)
    ensures Valid(r) && AllParsed(r)
    ensures r.source == map[] && r.parsed == map[] && r.index == []
    ensures r.current == p.current
  {
    Empty(p.current)
  }

  /** addSourceLine: line n now reads `text`; every other line, every statement and the
      cursor are as before. */
  function AddSourceLine(p: Program, n: int, text: string): (r: Program)
    requires Valid(p)
    ensures Valid(r)
    ensures GetSourceLine(r, n) == text && n in r.index
    ensures forall m :: m != n ==> GetSourceLine(r, m) == GetSourceLine(p, m)
    ensures forall m :: m != n ==> (m in r.index <==> m in p.index)
    ensures |r.index| == if n in p.source then |p.index| else |p.index| + 1
    ensures r.parsed == p.parsed && r.current == p.current
  {
    p.(source := p.source[n := text], index := Insert(p.index, n))
  }

  /** removeSourceLine: line n has no source text and no index entry; its parsed
      statement, if any, stays; nothing changes when n was absent. */
  function RemoveSourceLine(p: Program, n: int): (r: Program)
    requires Valid(p)
    ensures Valid(r)
    ensures n !in r.source && n !in r.index
    ensures forall m :: m != n ==> GetSourceLine(r, m) == GetSourceLine(p, m)
    ensures forall m :: m != n ==> (m in r.index <==> m in p.index)
    ensures r.parsed == p.parsed && r.current == p.current
    ensures n !in p.source ==> r == p
  {
    if n in p.source then p.(source := p.source - {n}, index := Erase(p.index, n)) else p
  }

  /** getSourceLine: the text of line n, or "" when it has none. */
  function GetSourceLine(p: Program, n: int): (s: string)
    ensures n in p.source ==> s == p.source[n]
    ensures n !in p.source ==> s == ""
  {
    if n in p.source then p.source[n] else ""
  }

  /** setParsedStatement: fails with LINE NUMBER ERROR, changing nothing, when line n has
      no source text; otherwise binds n to `st`, replacing any earlier statement. */
  function SetParsedStatement(p: Program, n: int, st: Statement): (r: Result<Program>)
    ensures n !in p.source <==> r == Fail(LineNumberError)
    ensures r.Ok? ==> GetParsedStatement(r.value, n) == Some(st)
    ensures r.Ok? ==> forall m :: m != n ==> GetParsedStatement(r.value, m) == GetParsedStatement(p, m)
    ensures r.Ok? ==> r.value.source == p.source && r.value.index == p.index && r.value.current == p.current
  {
    if n !in p.source then Fail(LineNumberError) else Ok(p.(parsed := p.parsed[n := st]))
  }

  /** getParsedStatement: the statement of line n, or None (a null pointer). */
  function GetParsedStatement(p: Program, n: int): (r: Option<Statement>)
    ensures n in p.parsed ==> r == Some(p.parsed[n])
    ensures n !in p.parsed ==> r == None
  {
    if n in p.parsed then Some(p.parsed[n]) else None
  }

  /** getFirstLineNumber: the smallest line number, or -1 when there is none. */
  function GetFirstLineNumber(p: Program): (r: int)
    requires Valid(p)
    ensures p.source == map[] ==> r == NoLine
    ensures p.source != map[] ==> r in p.source && forall m :: m in p.source ==> r <= m
  {
    EmptyIndex(p);
    if |p.index| == 0 then NoLine
    else
      assert forall m :: m in p.source ==> m in p.index;
      assert p.index[0] in p.index;
      p.index[0]
  }

  /** getNextLineNumber: the smallest line number greater than k, or -1 when there is none. */
  function GetNextLineNumber(p: Program, k: int): (r: int)
    requires Valid(p)
    ensures (forall m :: m in p.source ==> m <= k) ==> r == NoLine
    ensures (exists m :: m in p.source && m > k) ==>
              && r in p.source && r > k
              && forall m :: m in p.source && m > k ==> r <= m
  {
    var i := UpperBound(p.index, k);
    if i == |p.index| then NoLine
    else
      assert p.index[i] in p.index;
      p.index[i]
  }

  /** setCurrentLine: moves the cursor and nothing else. */
  function SetCurrentLine(p: Program, n: int): (r: Program)
    ensures GetCurrentLine(r) == n
    ensures r.source == p.source && r.parsed == p.parsed && r.index == p.index
  {
    p.(current := n)
  }

  function GetCurrentLine(p: Program): int {
    p.current
  }

  /** nextLine: the line after the cursor; -1 when the store is empty or the cursor is -1. */
  function NextLine(p: Program): (r: int)
    requires Valid(p)
    ensures p.source == map[] || p.current == NoLine ==> r == NoLine
    ensures p.source != map[] && p.current != NoLine ==> r == GetNextLineNumber(p, p.current)
  {
    EmptyIndex(p);
    if |p.index| == 0 || p.current == NoLine then NoLine else GetNextLineNumber(p, p.current)
  }

  /** listAllLines, without the printing: the source text of every line, in ascending
      line-number order. */
  function ListAllLines(p: Program): (r: seq<string>)
    requires Valid(p)
    ensures |r| == |p.index|
    ensures forall i :: 0 <= i < |r| ==> p.index[i] in p.source
    ensures forall i :: 0 <= i < |r| ==> r[i] == p.source[p.index[i]]
  {
    assert forall i :: 0 <= i < |p.index| ==> p.index[i] in p.index;
    seq(|p.index|, i requires 0 <= i < |p.index| => p.source[p.index[i]])
  }

  // ---------------------------------------------------------------------------
  // Laws of the store
  // ---------------------------------------------------------------------------

  /** An increasing sequence has as many distinct elements as positions. */
  lemma {:induction false} IncreasingDistinct(s: seq<int>)
    requires Increasing(s)
    ensures |set x | x in s| == |s|
  {
    if |s| > 0 {
      IncreasingDistinct(s[1..]);
      assert (set x | x in s) == {s[0]} + (set x | x in s[1..]);
      assert s[0] !in s[1..];
    } else {
      assert (set x | x in s) == {};
    }
  }

  /** The index holds one entry per stored line, so the listing has one text per line. */
  lemma IndexCount(p: Program)
    requires Valid(p)
    ensures |p.index| == |p.source|
    ensures |ListAllLines(p)| == |p.source|
  {
    IncreasingDistinct(p.index);
    assert (set x | x in p.index) == p.source.Keys;
  }

  /** From an indexed line, the next line is the following index entry, or -1 after the
      last one. */
  lemma NextOfIndexed(p: Program, k: nat)
    requires Valid(p) && k < |p.index|
    ensures GetNextLineNumber(p, p.index[k]) == if k + 1 < |p.index| then p.index[k + 1] else NoLine
  {
    var i := UpperBound(p.index, p.index[k]);
    assert p.index[k] <= p.index[k];
    if k + 1 < |p.index| {
      assert p.index[k] < p.index[k + 1];
    }
  }

  /** Re-adding a line replaces its text and leaves a single index entry. */
  lemma AddReplaces(p: Program, n: int, a: string, b: string)
    requires Valid(p)
    ensures AddSourceLine(AddSourceLine(p, n, a), n, b) == AddSourceLine(p, n, b)
  {
    assert p.source[n := a][n := b] == p.source[n := b];
  }

  /** Removing a line twice is the same as removing it once. */
  lemma RemoveIdempotent(p: Program, n: int)
    requires Valid(p)
    ensures RemoveSourceLine(RemoveSourceLine(p, n), n) == RemoveSourceLine(p, n)
  {
  }
}
