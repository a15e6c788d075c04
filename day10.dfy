/** Day 10 of 2022 (2022/day10.rs): cathode-ray tube. A CPU with one
    register x (starting at 1) runs `noop` (one cycle) and `addx v` (two
    cycles, then x += v). Every cycle first draws the pixel at the current
    cycle count (lit when x is within one of `cycle % 40`), then counts the
    cycle, then adds x * cycle to the signal strength when the new count is
    20, 60, ..., 220. Drawing past the 240-pixel screen panics, but only
    when the pixel is lit: the write is inside the `if`. */
module Day10 {
  import opened Results
  import opened TextNum

  const SCREEN: nat := 240
  const I64_MIN: int := -0x8000_0000_0000_0000
  const I64_MAX: int := 0x7FFF_FFFF_FFFF_FFFF

  datatype Cmd = Noop | Addx(v: int)

  /** The CPU as a value. */
  datatype CpuState = CpuState(x: int, cycle: nat, signal: int, screen: seq<char>)

  /** Cpu::new(). */
  function NewState(): CpuState {
    CpuState(1, 0, 0, seq(SCREEN, _ => '.'))
  }

  function Abs(v: int): int {
    if v < 0 then -v else v
  }

  /** The pixel at `cycle` is lit for register value x. */
  predicate Lit(x: int, cycle: nat) {
    var diff := Abs(x - cycle % 40);
    diff == 0 || diff == 1
  }

  /** The cycles at which the signal strength is sampled. */
  predicate Checkpoint(c: nat) {
    c == 20 || c == 60 || c == 100 || c == 140 || c == 180 || c == 220
  }

  /** draw: a lit pixel is written at index `cycle`, which panics past the
      screen. */
  function DrawOn(s: CpuState): Option<CpuState> {
    if Lit(s.x, s.cycle) then
      if s.cycle < |s.screen| then Some(s.(screen := s.screen[s.cycle := '#'])) else None
    else Some(s)
  }

  /** add_signal_strength. */
  function Sample(s: CpuState): CpuState {
    s.(signal := s.signal + if Checkpoint(s.cycle) then s.x * s.cycle else 0)
  }

  /** one_cycle: draw, count the cycle, sample. */
  function Tick(s: CpuState): Option<CpuState> {
    var d := DrawOn(s);
    if d.None? then None else Some(Sample(d.value.(cycle := d.value.cycle + 1)))
  }

  /** fetch_cmd. */
  function Fetch(s: CpuState, cmd: Cmd): Option<CpuState> {
    var t := Tick(s);
    if t.None? then None
    else match cmd
      case Noop => t
      case Addx(v) =>
        var u := Tick(t.value);
        if u.None? then None else Some(u.value.(x := u.value.x + v))
  }

  /** parse_line: the first space-separated piece names the command;
      `addx` needs a second piece that parses as an `i64`. Anything else
      panics (None). */
  function ParseLine(line: string): (r: Option<Cmd>)
    ensures r == Some(Noop) ==> Split(line, ' ')[0] == "noop"
    ensures r.Some? && r.value.Addx? ==>
      Split(line, ' ')[0] == "addx" && |Split(line, ' ')| >= 2 &&
      ParseInt(Split(line, ' ')[1], I64_MIN, I64_MAX) == Some(r.value.v)
  {
    var cmd := Split(line, ' ');
    if cmd[0] == "noop" then Some(Noop)
    else if cmd[0] == "addx" then
      if |cmd| < 2 then None
      else
        var v := ParseInt(cmd[1], I64_MIN, I64_MAX);
        if v.None? then None else Some(Addx(v.value))
    else None
  }

  class Cpu {
    var x: int
    var cycle: nat
    var signalStrength: int
    var screen: array<char>

    function State(): CpuState
      reads this, screen
    {
      CpuState(x, cycle, signalStrength, screen[..])
    }

    /** Cpu::new(). */
    constructor ()
      ensures fresh(screen) && State() == NewState()
    {
      x := 1;
      cycle := 0;
      signalStrength := 0;
      screen := new char[SCREEN](_ => '.');
      new;
      assert screen[..] == seq(SCREEN, _ => '.');
    }

    method Addx(v: int)
      modifies this
      ensures screen == old(screen)
      ensures State() == old(State()).(x := old(x) + v)
    {
      x := x + v;
    }

    /** draw; false for the panic. */
    method Draw() returns (ok: bool)
      modifies screen
      ensures ok <==> DrawOn(old(State())).Some?
      ensures ok ==> State() == DrawOn(old(State())).value
    {
      var diff := Abs(x - (cycle % 40) as int);
      if diff == 0 || diff == 1 {
        if cycle >= screen.Length {
          return false;
        }
        screen[cycle] := '#';
      }
      return true;
    }

    method AddSignalStrength()
      modifies this
      ensures screen == old(screen)
      ensures State() == Sample(old(State()))
    {
      if cycle == 20 || cycle == 60 || cycle == 100 || cycle == 140 || cycle == 180 || cycle == 220 {
        signalStrength := signalStrength + x * cycle;
      }
    }

    /** one_cycle; false for the panic. */
    method OneCycle() returns (ok: bool)
      modifies this, screen
      ensures screen == old(screen)
      ensures ok <==> Tick(old(State())).Some?
      ensures ok ==> State() == Tick(old(State())).value
    {
      ok := Draw();
      if !ok {
        return;
      }
      cycle := cycle + 1;
      AddSignalStrength();
    }

    /** fetch_cmd; false for the panic. */
    method FetchCmd(cmd: Cmd) returns (ok: bool)
      modifies this, screen
      ensures screen == old(screen)
      ensures ok <==> Fetch(old(State()), cmd).Some?
      ensures ok ==> State() == Fetch(old(State()), cmd).value
    {
      match cmd {
        case Noop =>
          ok := OneCycle();
        case Addx(v) =>
          ok := OneCycle();
          if !ok {
            return;
          }
          ok := OneCycle();
          if !ok {
            return;
          }
          Addx(v);
      }
    }
  }

  /** The CPU after the lines, None at a panic. */
  function Run(lines: seq<string>): Option<CpuState> {
    if lines == [] then Some(NewState())
    else
      var prev := Run(lines[..|lines| - 1]);
      var cmd := ParseLine(lines[|lines| - 1]);
      if prev.None? || cmd.None? then None else Fetch(prev.value, cmd.value)
  }

  lemma {:induction false} RunNoneUp(lines: seq<string>, k: nat)
    requires k <= |lines| && Run(lines[..k]).None?
    ensures Run(lines).None?
    decreases |lines| - k
  {
    if k < |lines| {
      assert lines[..k + 1][..k] == lines[..k];
      RunNoneUp(lines, k + 1);
    } else {
      assert lines[..k] == lines;
    }
  }

  /** `main`: part 1's signal strength and the screen part 2 prints, None
      on a panic. */
  method Solve(lines: seq<string>) returns (r: Option<(int, seq<char>)>)
    ensures r.Some? <==> Run(lines).Some?
    ensures r.Some? ==> r.value == (Run(lines).value.signal, Run(lines).value.screen)
  {
    var cpu := new Cpu();
    ghost var pixels := cpu.screen;
    for i := 0 to |lines|
      invariant cpu.screen == pixels
      invariant Run(lines[..i]) == Some(cpu.State())
    {
      assert lines[..i + 1][..i] == lines[..i];
      var cmd := ParseLine(lines[i]);
      if cmd.None? {
        RunNoneUp(lines, i + 1);
        return None;
      }
      var ok := cpu.FetchCmd(cmd.value);
      if !ok {
        RunNoneUp(lines, i + 1);
        return None;
      }
    }
    assert lines[..|lines|] == lines;
    return Some((cpu.signalStrength, cpu.screen[..]));
  }

  // ---------------------------------------------------------------------
  // One cycle and one command

  /** draw lights the pixel at `cycle` exactly when x is within one of
      `cycle % 40`, changes no other pixel, and never turns one off. */
  lemma DrawMeaning(s: CpuState)
    ensures DrawOn(s).None? <==> Lit(s.x, s.cycle) && s.cycle >= |s.screen|
    ensures DrawOn(s).Some? ==>
      var t := DrawOn(s).value;
      && t.(screen := s.screen) == s
      && |t.screen| == |s.screen|
      && (forall i | 0 <= i < |s.screen| && i != s.cycle :: t.screen[i] == s.screen[i])
      && (s.cycle < |s.screen| ==> (t.screen[s.cycle] == '#' <==> Lit(s.x, s.cycle) || s.screen[s.cycle] == '#'))
  {
  }

  /** noop takes one cycle, addx two, and x changes only after both. */
  lemma FetchMeaning(s: CpuState, cmd: Cmd)
    requires Fetch(s, cmd).Some?
    ensures Fetch(s, cmd).value.cycle == s.cycle + (if cmd.Noop? then 1 else 2)
    ensures Fetch(s, cmd).value.x == s.x + (if cmd.Noop? then 0 else cmd.v)
    ensures cmd.Addx? ==>
      && Tick(s).Some? && Tick(Tick(s).value).Some? && Tick(s).value.x == s.x
      && Fetch(s, cmd).value == Tick(Tick(s).value).value.(x := s.x + cmd.v)
  {
  }

  // ---------------------------------------------------------------------
  // The whole program

  /** The commands of the lines, None at a line parse_line rejects. */
  function Cmds(lines: seq<string>): Option<seq<Cmd>> {
    if lines == [] then Some([])
    else
      var prev := Cmds(lines[..|lines| - 1]);
      var cmd := ParseLine(lines[|lines| - 1]);
      if prev.None? || cmd.None? then None else Some(prev.value + [cmd.value])
  }

  /** The CPU after running cmds from s. */
  function Exec(s: CpuState, cmds: seq<Cmd>): Option<CpuState> {
    if cmds == [] then Some(s)
    else
      var prev := Exec(s, cmds[..|cmds| - 1]);
      if prev.None? then None else Fetch(prev.value, cmds[|cmds| - 1])
  }

  /** Running the lines is running their commands: a line that does not
      parse is a panic, wherever it is. */
  lemma {:induction false} RunIsExec(lines: seq<string>)
    ensures Run(lines) == if Cmds(lines).None? then None else Exec(NewState(), Cmds(lines).value)
  {
    if lines != [] {
      var init := lines[..|lines| - 1];
      RunIsExec(init);
      var cs := Cmds(init);
      var cmd := ParseLine(lines[|lines| - 1]);
      if cs.Some? && cmd.Some? {
        assert (cs.value + [cmd.value])[..|cs.value|] == cs.value;
      }
    }
  }

  /** The register x after the commands: 1 plus every addx value. */
  function X(cmds: seq<Cmd>): int {
    if cmds == [] then 1
    else X(cmds[..|cmds| - 1]) + match cmds[|cmds| - 1] case Noop => 0 case Addx(v) => v
  }

  /** The value of x during each cycle: one entry for noop, two for addx,
      both the value before the addition. */
  function Trace(cmds: seq<Cmd>): seq<int> {
    if cmds == [] then []
    else
      var init := cmds[..|cmds| - 1];
      Trace(init) + match cmds[|cmds| - 1] case Noop => [X(init)] case Addx(_) => [X(init), X(init)]
  }

  /** The signal strength: c times the x during cycle c, summed over the
      checkpoints c among the cycles of the trace. */
  function SignalSum(tr: seq<int>): int {
    if tr == [] then 0
    else SignalSum(tr[..|tr| - 1]) + if Checkpoint(|tr|) then |tr| * tr[|tr| - 1] else 0
  }

  /** The screen after the trace: pixel i lit when x during cycle i + 1 is
      within one of i % 40. */
  function ScreenOf(tr: seq<int>): seq<char> {
    seq(SCREEN, i requires 0 <= i < SCREEN => if i < |tr| && Lit(tr[i], i) then '#' else '.')
  }

  /** The CPU after the trace, with register value x. */
  function Expected(tr: seq<int>, x: int): CpuState {
    CpuState(x, |tr|, SignalSum(tr), ScreenOf(tr))
  }

  /** No lit pixel past the screen. */
  predicate NoPanic(tr: seq<int>) {
    forall i | SCREEN <= i < |tr| :: !Lit(tr[i], i)
  }

  lemma TickExpected(tr: seq<int>, x: int)
    ensures Tick(Expected(tr, x)) ==
      if Lit(x, |tr|) && |tr| >= SCREEN then None else Some(Expected(tr + [x], x))
  {
    var tr' := tr + [x];
    assert tr'[..|tr|] == tr;
    if !(Lit(x, |tr|) && |tr| >= SCREEN) {
      var d := DrawOn(Expected(tr, x)).value;
      assert d.screen == ScreenOf(tr');
    }
  }

  lemma NoPanicSnoc(tr: seq<int>, x: int)
    ensures NoPanic(tr + [x]) <==> NoPanic(tr) && !(Lit(x, |tr|) && |tr| >= SCREEN)
  {
    var tr' := tr + [x];
    if NoPanic(tr') {
      forall i | SCREEN <= i < |tr|
        ensures !Lit(tr[i], i)
      {
        assert tr'[i] == tr[i];
      }
      assert tr'[|tr|] == x;
    }
    if NoPanic(tr) && !(Lit(x, |tr|) && |tr| >= SCREEN) {
      forall i | SCREEN <= i < |tr'|
        ensures !Lit(tr'[i], i)
      {
        if i < |tr| {
          assert tr'[i] == tr[i];
        }
      }
    }
  }

  /** The CPU after a program: x, the cycle count, the signal strength and
      every pixel follow from the trace of x values, and the run panics
      exactly when a lit pixel falls past the screen. */
  lemma {:induction false} ExecMeaning(cmds: seq<Cmd>)
    ensures Exec(NewState(), cmds) ==
      if NoPanic(Trace(cmds)) then Some(Expected(Trace(cmds), X(cmds))) else None
  {
    if cmds == [] {
      assert NewState() == Expected([], 1);
    } else {
      var init := cmds[..|cmds| - 1];
      ExecMeaning(init);
      var tr := Trace(init);
      var x := X(init);
      TickExpected(tr, x);
      NoPanicSnoc(tr, x);
      match cmds[|cmds| - 1]
      case Noop =>
      case Addx(v) =>
        TickExpected(tr + [x], x);
        NoPanicSnoc(tr + [x], x);
        assert tr + [x] + [x] == tr + [x, x];
    }
  }

  /** For lines that all parse: the program's answers in terms of the
      trace of x values. */
  lemma Meaning(lines: seq<string>)
    requires Cmds(lines).Some?
    ensures var cmds := Cmds(lines).value;
      && (Run(lines).Some? <==> NoPanic(Trace(cmds)))
      && (Run(lines).Some? ==> Run(lines).value.signal == SignalSum(Trace(cmds)))
      && (Run(lines).Some? ==> Run(lines).value.screen == ScreenOf(Trace(cmds)))
  {
    RunIsExec(lines);
    ExecMeaning(Cmds(lines).value);
  }
}
