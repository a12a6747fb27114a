/** `parse_load_data.py`: the reader of a captured container-stats log. The
    log alternates a timestamp line and a `container,cpu%,used / total`
    line; `parse_file` walks it two lines at a time, skipping what does not
    fit, and turns each good pair into a row with the memory in MiB.

    Python's `float()` is not modelled: every member takes it as the
    parameter `fl`, which gives the value of a string or `None` for the
    ValueError. Reading the file is left out: the input is its lines. */
module ContainerStats {
  import opened Wrappers
  import opened PyStr

  /** The exceptions `parse_file` lets escape. */
  datatype ParseError =
    | SlashCount(memText: string)   // the memory text is not two parts around one `/`
    | BadFloat(text: string)        // the text is not a number

  datatype Row = Row(timestamp: int, container: string, cpuPercent: real,
                     memUsedMib: real, memTotalMib: real)

  function FloatOf(fl: string -> Option<real>, s: string): (r: Result<real, ParseError>)
    ensures r.Ok? <==> fl(s).Some?
    ensures r.Ok? ==> r.value == fl(s).value
    ensures r.Err? ==> r.error == BadFloat(s)
  {
    match fl(s)
    case Some(x) => Ok(x)
    case None => Err(BadFloat(s))
  }

  predicate EndsWith(s: string, suffix: string) {
    |s| >= |suffix| && s[|s| - |suffix|..] == suffix
  }

  /** `to_mib`: the number before a `GiB`, `MiB` or `KiB` suffix scaled to
      MiB, or the whole string read as MiB when there is no suffix. */
  function ToMib(fl: string -> Option<real>, val: string): Result<real, ParseError> {
    if EndsWith(val, "GiB") then
      match FloatOf(fl, val[..|val| - 3])
      case Ok(x) => Ok(x * 1024.0)
      case Err(e) => Err(e)
    else if EndsWith(val, "MiB") then
      FloatOf(fl, val[..|val| - 3])
    else if EndsWith(val, "KiB") then
      match FloatOf(fl, val[..|val| - 3])
      case Ok(x) => Ok(x / 1024.0)
      case Err(e) => Err(e)
    else
      FloatOf(fl, val)
  }

  /** The three units and the bare number, each applied to a number text
      `x` that parses as `v`: GiB is 1024 MiB, KiB is 1/1024 MiB. */
  lemma ToMibUnits(fl: string -> Option<real>, x: string, v: real)
    requires fl(x) == Some(v)
    ensures ToMib(fl, x + "GiB") == Ok(v * 1024.0)
    ensures ToMib(fl, x + "MiB") == Ok(v)
    ensures ToMib(fl, x + "KiB") == Ok(v / 1024.0)
    ensures !EndsWith(x, "GiB") && !EndsWith(x, "MiB") && !EndsWith(x, "KiB") ==> ToMib(fl, x) == Ok(v)
  {
    assert (x + "GiB")[..|x|] == x && (x + "GiB")[|x|..] == "GiB";
    assert (x + "MiB")[..|x|] == x && (x + "MiB")[|x|..] == "MiB";
    assert (x + "KiB")[..|x|] == x && (x + "KiB")[|x|..] == "KiB";
  }

  /** `parse_mem`: split at the one `/`, strip both sides and convert each
      to MiB. Any other number of `/` is the unpacking ValueError. */
  function ParseMem(fl: string -> Option<real>, memStr: string): (r: Result<(real, real), ParseError>)
    ensures Count(memStr, '/') != 1 ==> r == Err(SlashCount(memStr))
  {
    var parts := Split(memStr, '/');
    SplitSpec(memStr, '/');
    if |parts| != 2 then Err(SlashCount(memStr))
    else
      match ToMib(fl, Strip(parts[0]))
      case Err(e) => Err(e)
      case Ok(used) =>
        match ToMib(fl, Strip(parts[1]))
        case Err(e) => Err(e)
        case Ok(total) => Ok((used, total))
  }

  /** A memory text with one `/` converts its two sides independently, the
      used side first. */
  lemma ParseMemSides(fl: string -> Option<real>, used: string, total: string)
    requires '/' !in used && '/' !in total
    ensures ParseMem(fl, used + "/" + total) ==
              match ToMib(fl, Strip(used))
              case Err(e) => Err(e)
              case Ok(u) =>
                match ToMib(fl, Strip(total))
                case Err(e) => Err(e)
                case Ok(t) => Ok((u, t))
  {
    assert used + "/" + total == used + ['/'] + total;
    SplitAround(used, '/', total);
    SplitFree(used, '/');
    SplitFree(total, '/');
  }

  /** `parse_cpu`: strip, remove every `%`, then read the number. */
  function ParseCpu(fl: string -> Option<real>, cpuStr: string): Result<real, ParseError> {
    FloatOf(fl, RemoveAll(Strip(cpuStr), '%'))
  }

  lemma {:induction false} RemoveAllAppend(a: string, b: string, c: char)
    ensures RemoveAll(a + b, c) == RemoveAll(a, c) + RemoveAll(b, c)
  {
    if a != [] {
      assert (a + b)[1..] == a[1..] + b;
      RemoveAllAppend(a[1..], b, c);
    } else {
      assert a + b == b;
    }
  }

  /** A percentage as the stats log writes it, `x%` with whitespace of
      any length on either side, reads as the number `x`. */
  lemma ParseCpuPercent(fl: string -> Option<real>, padL: string, x: string, padR: string)
    requires AllSpace(padL) && AllSpace(padR) && x != [] && !IsSpace(x[0]) && '%' !in x
    ensures ParseCpu(fl, padL + x + "%" + padR) == FloatOf(fl, x)
  {
    var core := x + "%";
    assert padL + x + "%" + padR == padL + (core + padR);
    assert (core + padR)[0] == x[0];
    StripLeftPadded(padL, core + padR);
    assert core[|core| - 1] == '%';
    StripRightPadded(core, padR);
    assert Strip(padL + x + "%" + padR) == core;
    RemoveAllAppend(x, "%", '%');
    RemoveAllSpec(x, '%');
    assert RemoveAll("%", '%') == [];
    assert RemoveAll(core, '%') == x + [];
    assert x + [] == x;
  }

  lemma {:induction false} StripLeftPadded(pad: string, rest: string)
    requires AllSpace(pad) && rest != [] && !IsSpace(rest[0])
    ensures StripLeft(pad + rest) == rest
  {
    if pad != [] {
      assert (pad + rest)[1..] == pad[1..] + rest;
      StripLeftPadded(pad[1..], rest);
    } else {
      assert pad + rest == rest;
    }
  }

  lemma {:induction false} StripRightPadded(core: string, pad: string)
    requires AllSpace(pad) && core != [] && !IsSpace(core[|core| - 1])
    ensures StripRight(core + pad) == core
  {
    if pad != [] {
      assert (core + pad)[..|core + pad| - 1] == core + pad[..|pad| - 1];
      StripRightPadded(core, pad[..|pad| - 1]);
    } else {
      assert core + pad == core;
    }
  }

  /** A row and the index of the timestamp line it was read from. */
  datatype Parsed = Parsed(line: nat, row: Row)

  function RowsOf(ps: seq<Parsed>): (rows: seq<Row>)
    ensures |rows| == |ps|
    ensures forall k :: 0 <= k < |ps| ==> rows[k] == ps[k].row
  {
    seq(|ps|, k requires 0 <= k < |ps| => ps[k].row)
  }

  /** Lines 48-57: the row of a pair whose stat line has three fields; the
      CPU field is read before the memory field. */
  function RowOf(fl: string -> Option<real>, timestamp: int, parts: seq<string>): Result<Row, ParseError>
    requires |parts| == 3
  {
    match ParseCpu(fl, parts[1])
    case Err(e) => Err(e)
    case Ok(cpu) =>
      match ParseMem(fl, parts[2])
      case Err(e) => Err(e)
      case Ok((used, total)) => Ok(Row(timestamp, parts[0], cpu, used, total))
  }

  /** What one iteration of the loop does with the pair of lines at `i`:
      move on one line, move on two, emit a row and move on two, or raise. */
  datatype Step = SkipOne | SkipTwo | Emit(row: Row) | Raise(error: ParseError)

  /** Lines 31-50: the decision on one pair of lines. */
  function PairStep(fl: string -> Option<real>, tsLine: string, statLine: string): Step {
    var ts := Strip(tsLine);
    var st := Strip(statLine);
    if ts == "" || st == "" then SkipOne
    else
      match ParseInt(ts)
      case None => SkipOne
      case Some(timestamp) =>
        var parts := Split(st, ',');
        if |parts| != 3 then SkipTwo
        else
          match RowOf(fl, timestamp, parts)
          case Err(e) => Raise(e)
          case Ok(row) => Emit(row)
  }

  /** What a pair of lines must hold for `row` to be read from it: neither
      line blank, the first an integer that is the row's timestamp, the
      second three comma fields whose first is the container and whose
      others parse as the CPU percentage and the memory pair. */
  predicate RowFrom(fl: string -> Option<real>, tsLine: string, statLine: string, row: Row) {
    var ts := Strip(tsLine);
    var st := Strip(statLine);
    var parts := Split(st, ',');
    && ts != "" && st != ""
    && ParseInt(ts) == Some(row.timestamp)
    && |parts| == 3
    && row.container == parts[0]
    && ParseCpu(fl, parts[1]) == Ok(row.cpuPercent)
    && ParseMem(fl, parts[2]) == Ok((row.memUsedMib, row.memTotalMib))
  }

  /** The outcomes of a pair step, each with what it requires of the lines:
      a blank line or a timestamp that is not an integer skips one line, a
      stat line without three fields skips both, a row is only emitted from
      a good pair, and an exception only comes from the CPU or memory field. */
  lemma PairStepCases(fl: string -> Option<real>, tsLine: string, statLine: string)
    ensures var ts, st := Strip(tsLine), Strip(statLine);
            PairStep(fl, tsLine, statLine) == SkipOne <==> (ts == "" || st == "" || ParseInt(ts).None?)
    ensures var ts, st := Strip(tsLine), Strip(statLine);
            PairStep(fl, tsLine, statLine) == SkipTwo <==>
              (ts != "" && st != "" && ParseInt(ts).Some? && |Split(st, ',')| != 3)
    ensures PairStep(fl, tsLine, statLine).Emit? ==> RowFrom(fl, tsLine, statLine, PairStep(fl, tsLine, statLine).row)
    ensures PairStep(fl, tsLine, statLine).Raise? ==>
              var parts := Split(Strip(statLine), ',');
              var e := PairStep(fl, tsLine, statLine).error;
              && ParseInt(Strip(tsLine)).Some? && |parts| == 3
              && (ParseCpu(fl, parts[1]) == Err(e) || (ParseCpu(fl, parts[1]).Ok? && ParseMem(fl, parts[2]) == Err(e)))
  {
  }

  /** The decision of the loop on every pair of adjacent lines: entry `j`
      is the step taken if the loop reaches index `j`. */
  function Steps(fl: string -> Option<real>, lines: seq<string>): (steps: seq<Step>)
    ensures |steps| == if lines == [] then 0 else |lines| - 1
    ensures forall j :: 0 <= j < |steps| ==> steps[j] == PairStep(fl, lines[j], lines[j + 1])
  {
    if lines == [] then []
    else seq(|lines| - 1, j requires 0 <= j < |lines| - 1 => PairStep(fl, lines[j], lines[j + 1]))
  }

  /** The walk of the loop from index `i`: the rows it emits, each with the
      index of its timestamp line, or the first exception raised. */
  function Walk(steps: seq<Step>, i: nat): Result<seq<Parsed>, ParseError>
    decreases |steps| - i
  {
    if i >= |steps| then Ok([])
    else
      match steps[i]
      case SkipOne => Walk(steps, i + 1)
      case SkipTwo => Walk(steps, i + 2)
      case Raise(e) => Err(e)
      case Emit(row) =>
        match Walk(steps, i + 2)
        case Err(e) => Err(e)
        case Ok(rest) => Ok([Parsed(i, row)] + rest)
  }

  /** What `parse_file` returns on the lines of a file, with the line index
      of each row. */
  function Scan(fl: string -> Option<real>, lines: seq<string>): Result<seq<Parsed>, ParseError> {
    Walk(Steps(fl, lines), 0)
  }

  /** Every row of a walk from `i` comes from an `Emit` step at or after
      `i`; rows come in order and each consumes its own two lines, so at
      most half of the remaining lines become rows. */
  lemma {:induction false} WalkRows(steps: seq<Step>, i: nat)
    requires i <= |steps| + 1 && Walk(steps, i).Ok?
    ensures var ps := Walk(steps, i).value;
            && 2 * |ps| <= |steps| + 1 - i
            && (forall k :: 0 <= k < |ps| ==>
                  i <= ps[k].line < |steps| && steps[ps[k].line] == Emit(ps[k].row))
            && (forall k, l :: 0 <= k < l < |ps| ==> ps[k].line + 2 <= ps[l].line)
    decreases |steps| - i
  {
    if i < |steps| {
      match steps[i]
      case SkipOne => WalkRows(steps, i + 1);
      case SkipTwo => WalkRows(steps, i + 2);
      case Emit(row) =>
        WalkRows(steps, i + 2);
        var ps := Walk(steps, i).value;
        var rest := Walk(steps, i + 2).value;
        assert ps == [Parsed(i, row)] + rest;
        assert forall k :: 1 <= k < |ps| ==> ps[k] == rest[k - 1];
    }
  }

  /** An exception of a walk is raised by a step at or after `i`. */
  lemma {:induction false} WalkError(steps: seq<Step>, i: nat)
    requires Walk(steps, i).Err?
    ensures exists j :: i <= j < |steps| && steps[j] == Raise(Walk(steps, i).error)
    decreases |steps| - i
  {
    match steps[i]
    case SkipOne => WalkError(steps, i + 1);
    case SkipTwo => WalkError(steps, i + 2);
    case Emit(_) => WalkError(steps, i + 2);
    case Raise(_) =>
  }

  /** The rows of `parse_file`: at most one per two lines, in input order,
      each read from its own good pair of lines (`RowFrom`). */
  lemma ScanRows(fl: string -> Option<real>, lines: seq<string>)
    requires Scan(fl, lines).Ok?
    ensures var ps := Scan(fl, lines).value;
            && 2 * |ps| <= |lines|
            && (forall k :: 0 <= k < |ps| ==>
                  ps[k].line + 1 < |lines| && RowFrom(fl, lines[ps[k].line], lines[ps[k].line + 1], ps[k].row))
            && (forall k, l :: 0 <= k < l < |ps| ==> ps[k].line + 2 <= ps[l].line)
  {
    var steps := Steps(fl, lines);
    WalkRows(steps, 0);
    var ps := Scan(fl, lines).value;
    forall k | 0 <= k < |ps|
      ensures ps[k].line + 1 < |lines| && RowFrom(fl, lines[ps[k].line], lines[ps[k].line + 1], ps[k].row)
    {
      PairStepCases(fl, lines[ps[k].line], lines[ps[k].line + 1]);
    }
  }

  /** `parse_file` raises only from a pair with an integer timestamp and
      three fields whose CPU or memory field does not parse. */
  lemma ScanError(fl: string -> Option<real>, lines: seq<string>)
    requires Scan(fl, lines).Err?
    ensures exists j :: 0 <= j && j + 1 < |lines| &&
              var parts := Split(Strip(lines[j + 1]), ',');
              var e := Scan(fl, lines).error;
              && ParseInt(Strip(lines[j])).Some? && |parts| == 3
              && (ParseCpu(fl, parts[1]) == Err(e) || (ParseCpu(fl, parts[1]).Ok? && ParseMem(fl, parts[2]) == Err(e)))
  {
    var steps := Steps(fl, lines);
    WalkError(steps, 0);
    var j :| 0 <= j < |steps| && steps[j] == Raise(Walk(steps, 0).error);
    PairStepCases(fl, lines[j], lines[j + 1]);
  }

  function PrependRows(rows: seq<Row>, r: Result<seq<Parsed>, ParseError>): Result<seq<Row>, ParseError> {
    match r
    case Ok(ps) => Ok(rows + RowsOf(ps))
    case Err(e) => Err(e)
  }

  /** One step of the walk, as the loop of `parse_file` takes it with the
      rows emitted so far in `rows`. */
  lemma WalkStep(steps: seq<Step>, i: nat, rows: seq<Row>)
    requires i < |steps| && !steps[i].Raise?
    ensures steps[i] == SkipOne ==> PrependRows(rows, Walk(steps, i)) == PrependRows(rows, Walk(steps, i + 1))
    ensures steps[i] == SkipTwo ==> PrependRows(rows, Walk(steps, i)) == PrependRows(rows, Walk(steps, i + 2))
    ensures steps[i].Emit? ==>
              PrependRows(rows, Walk(steps, i)) == PrependRows(rows + [steps[i].row], Walk(steps, i + 2))
  {
    if steps[i].Emit? && Walk(steps, i + 2).Ok? {
      var row := steps[i].row;
      var rest := Walk(steps, i + 2).value;
      assert Walk(steps, i) == Ok([Parsed(i, row)] + rest);
      assert RowsOf([Parsed(i, row)] + rest) == [row] + RowsOf(rest);
      assert rows + ([row] + RowsOf(rest)) == (rows + [row]) + RowsOf(rest);
    }
  }

  /** The body of the loop of `parse_file` on the pair of lines at the
      loop index, written as the source's statements with their early
      `continue`s. It is the same decision as the function `PairStep`,
      which the specification of the loop uses, and is proved equal to it. */
  method ReadPair(fl: string -> Option<real>, tsLine: string, statLine: string) returns (step: Step)
    ensures step == PairStep(fl, tsLine, statLine)
  {
    var ts := Strip(tsLine);
    var st := Strip(statLine);
    if ts == "" || st == "" {
      return SkipOne;
    }
    var timestamp := ParseInt(ts);
    if timestamp.None? {
      return SkipOne;
    }
    var parts := Split(st, ',');
    if |parts| != 3 {
      return SkipTwo;
    }
    var container, cpuStr, memStr := parts[0], parts[1], parts[2];
    var cpu := ParseCpu(fl, cpuStr);
    if cpu.Err? {
      return Raise(cpu.error);
    }
    var mem := ParseMem(fl, memStr);
    if mem.Err? {
      return Raise(mem.error);
    }
    return Emit(Row(timestamp.value, container, cpu.value, mem.value.0, mem.value.1));
  }

  /** `parse_file` on the lines of the file: the rows `Scan` describes, in
      order, or the first exception. */
  method ParseFile(fl: string -> Option<real>, lines: seq<string>) returns (r: Result<seq<Row>, ParseError>)
    ensures r == PrependRows([], Scan(fl, lines))
  {
    ghost var steps := Steps(fl, lines);
    var rows: seq<Row> := [];
    var i: nat := 0;
    while i < |lines| - 1
      invariant PrependRows([], Walk(steps, 0)) == PrependRows(rows, Walk(steps, i))
      decreases |lines| - i
    {
      var step := ReadPair(fl, lines[i], lines[i + 1]);
      assert steps[i] == step;
      match step {
        case SkipOne =>
          WalkStep(steps, i, rows);
          i := i + 1;
        case SkipTwo =>
          WalkStep(steps, i, rows);
          i := i + 2;
        case Raise(e) =>
          return Err(e);
        case Emit(row) =>
          WalkStep(steps, i, rows);
          rows := rows + [row];
          i := i + 2;
      }
    }
    assert rows + RowsOf([]) == rows;
    return Ok(rows);
  }
}
