/**
 * interactive_confirm_paths and dialog (cli.py): a loop that shows the most
 * recent `n` paths, reads one choice letter per pass and lets the handlers
 * grow or shrink `n`, confirm the window, or quit with nothing.
 */
module ConfirmPaths {
  import opened Wrappers
  import opened Choices

  /** Values of a ctypes c_uint16. */
  type U16 = x: int | 0 <= x < 0x1_0000

  /** Storing an int into a c_uint16 keeps it modulo 2^16. */
  function Wrap16(x: int): U16
  {
    x % 0x1_0000
  }

  /** The Choice keys of the handler table in insertion order: the choices the dialog offers. */
  const DialogChoices: seq<Choice> := [Yes, OneLess, OneMore, Quit]

  /** paths[-n:]: the last n paths, or all of them when n is 0 or at least the number of paths. */
  function Window(paths: seq<string>, n: U16): (r: seq<string>)
    ensures |r| == if n == 0 || n >= |paths| then |paths| else n
    ensures r == paths[|paths| - |r|..]
  {
    if n == 0 || n >= |paths| then paths else paths[|paths| - n..]
  }

  /** The variables the handlers share: n_recent, recent_paths and dialog_terminated. */
  datatype DialogState = DialogState(nRecent: U16, recentPaths: seq<string>, terminated: bool)

  /** Where the dialog ends: its last state, and whether input ran out (EOFError) first. */
  datatype Outcome = Outcome(state: DialogState, exhausted: bool)

  /** The LOOP_DIALOG handler: recompute the window from the current n. */
  function Refresh(paths: seq<string>, s: DialogState): DialogState
  {
    s.(recentPaths := Window(paths, s.nRecent))
  }

  /** n_recent.value - 1 stored back into the c_uint16. */
  function Decrement(n: U16): U16
  {
    if n == 0 then 0xFFFF else n - 1
  }

  /** n_recent.value + 1 stored back into the c_uint16. */
  function Increment(n: U16): U16
  {
    if n == 0xFFFF then 0 else n + 1
  }

  /** The one-step updates are the c_uint16 store of n - 1 and n + 1. */
  lemma {:induction false} StepsWrap(n: U16)
    ensures Decrement(n) == Wrap16(n - 1)
    ensures Increment(n) == Wrap16(n + 1)
    ensures Decrement(Increment(n)) == n && Increment(Decrement(n)) == n
  {
  }

  /** The handler the dialog calls for a resolved choice. */
  function Handle(s: DialogState, c: Choice): DialogState
    requires c in DialogChoices
  {
    if c == Yes then s.(terminated := true)
    else if c == OneLess then s.(nRecent := Decrement(s.nRecent))
    else if c == OneMore then s.(nRecent := Increment(s.nRecent))
    else s.(recentPaths := [], terminated := true)
  }

  /**
   * What each handler does: YES terminates keeping the window, QUIT empties
   * it and terminates, ONE_LESS and ONE_MORE move n by one with c_uint16
   * wrap-around (0 - 1 is 65535, 65535 + 1 is 0).
   */
  lemma {:induction false} HandleSpec(s: DialogState, c: Choice)
    requires c in DialogChoices
    ensures c == Yes ==> Handle(s, c) == s.(terminated := true)
    ensures c == Quit ==> Handle(s, c) == s.(recentPaths := [], terminated := true)
    ensures c == OneLess ==> Handle(s, c) == s.(nRecent := Wrap16(s.nRecent - 1))
    ensures c == OneMore ==> Handle(s, c) == s.(nRecent := Wrap16(s.nRecent + 1))
  {
    StepsWrap(s.nRecent);
  }

  /** The letters the dialog accepts: exactly the keys of its four handlers. */
  lemma {:induction false} DialogLetters(line: string)
    ensures FirstMatch(line, DialogChoices, []) ==
      if line == "y" then Ok(Yes)
      else if line == "l" then Ok(OneLess)
      else if line == "m" then Ok(OneMore)
      else if line == "q" then Ok(Quit)
      else Err(InvalidChoice)
  {
    var cs := DialogChoices;
    assert cs[1..] == [OneLess, OneMore, Quit];
    assert cs[1..][1..] == [OneMore, Quit];
    assert cs[1..][1..][1..] == [Quit];
    assert FirstMatch(line, cs[1..][1..][1..][1..], []) == Err(InvalidChoice);
    assert FirstMatch(line, cs[1..][1..][1..], []) == if line == "q" then Ok(Quit) else Err(InvalidChoice);
    assert FirstMatch(line, cs[1..][1..], []) ==
      if line == "m" then Ok(OneMore) else FirstMatch(line, cs[1..][1..][1..], []);
    assert FirstMatch(line, cs[1..], []) ==
      if line == "l" then Ok(OneLess) else FirstMatch(line, cs[1..][1..], []);
  }

  /**
   * One pass of dialog's loop: refresh the window, read one line and, if it
   * names an offered choice, run that choice's handler; an invalid line
   * (ValueError) changes nothing.
   */
  function Step(paths: seq<string>, s: DialogState, line: string): DialogState
  {
    var s1 := Refresh(paths, s);
    match FirstMatch(line, DialogChoices, [])
    case Ok(c) => Handle(s1, c)
    case Err(_) => s1
  }

  /** dialog: passes run while not terminated; input running out ends it with EOFError. */
  function Dialog(paths: seq<string>, s: DialogState, lines: seq<string>): Outcome
    decreases |lines|
  {
    if s.terminated then Outcome(s, false)
    else if lines == [] then Outcome(Refresh(paths, s), true)
    else Dialog(paths, Step(paths, s, lines[0]), lines[1..])
  }

  /** The dialog as interactive_confirm_paths starts it: n given, no paths shown, not terminated. */
  function ConfirmOutcome(paths: seq<string>, nRecent: U16, lines: seq<string>): Outcome
  {
    Dialog(paths, DialogState(nRecent, [], false), lines)
  }

  /** Lines that end the dialog: the keys of YES and QUIT. */
  predicate Stops(line: string)
  {
    line == "y" || line == "q"
  }

  /** How one line moves n: one up for "m", one down for "l". */
  function Delta(line: string): int
  {
    if line == "m" then 1 else if line == "l" then -1 else 0
  }

  /** Net change of n over some lines. */
  function Net(lines: seq<string>): int
  {
    if lines == [] then 0 else Delta(lines[0]) + Net(lines[1..])
  }

  /** Index of the first line that stops the dialog, |lines| if none does. */
  function FirstStop(lines: seq<string>): (k: nat)
    ensures k <= |lines|
    ensures forall j :: 0 <= j < k ==> !Stops(lines[j])
    ensures k < |lines| ==> Stops(lines[k])
  {
    if lines == [] || Stops(lines[0]) then 0 else 1 + FirstStop(lines[1..])
  }

  /** A pass on a line that does not stop the dialog only moves n by the line's delta, modulo 2^16. */
  lemma {:induction false} StepMoves(paths: seq<string>, s: DialogState, line: string)
    requires !Stops(line)
    ensures Step(paths, s, line) == DialogState(
      if line == "m" then Increment(s.nRecent) else if line == "l" then Decrement(s.nRecent) else s.nRecent,
      Window(paths, s.nRecent), s.terminated)
  {
    DialogLetters(line);
    var s1 := Refresh(paths, s);
    if line == "m" {
      assert Step(paths, s, line) == Handle(s1, OneMore);
    } else if line == "l" {
      assert Step(paths, s, line) == Handle(s1, OneLess);
    } else {
      assert Step(paths, s, line) == s1;
    }
  }

  /** A "y" or "q" ends the dialog on the pass that reads it. */
  lemma {:induction false} DialogAtStop(paths: seq<string>, s: DialogState, lines: seq<string>)
    requires !s.terminated && lines != [] && Stops(lines[0])
    ensures Dialog(paths, s, lines) == Outcome(DialogState(s.nRecent,
      if lines[0] == "q" then [] else Window(paths, s.nRecent), true), false)
  {
    DialogLetters(lines[0]);
  }

  /**
   * Where the dialog ends: at the first "y" or "q", or with EOFError when
   * there is none; the returned paths are the window paths[-n:] for the final
   * n, except after "q", which returns nothing.
   */
  lemma {:induction false} DialogSpec(paths: seq<string>, s: DialogState, lines: seq<string>)
    requires !s.terminated
    ensures Dialog(paths, s, lines).exhausted <==> FirstStop(lines) == |lines|
    ensures Dialog(paths, s, lines).state.terminated <==> FirstStop(lines) < |lines|
    ensures Dialog(paths, s, lines).state.recentPaths ==
      if FirstStop(lines) < |lines| && lines[FirstStop(lines)] == "q" then []
      else Window(paths, Dialog(paths, s, lines).state.nRecent)
    decreases |lines|
  {
    if lines == [] {
    } else if Stops(lines[0]) {
      DialogAtStop(paths, s, lines);
    } else {
      var s1 := Step(paths, s, lines[0]);
      StepMoves(paths, s, lines[0]);
      DialogSpec(paths, s1, lines[1..]);
    }
  }

  /** n after reading some lines that do not stop the dialog: each "m" increments it and each "l" decrements it. */
  function FinalN(n: U16, lines: seq<string>): U16
    decreases |lines|
  {
    if lines == [] then n
    else FinalN(if lines[0] == "m" then Increment(n) else if lines[0] == "l" then Decrement(n) else n, lines[1..])
  }

  /** The final n is the start value plus the net change, modulo 2^16. */
  lemma {:induction false} FinalNWraps(n: U16, lines: seq<string>)
    ensures FinalN(n, lines) == Wrap16(n + Net(lines))
    decreases |lines|
  {
    if lines == [] {
      WrapKeeps(n);
    } else {
      var m := if lines[0] == "m" then Increment(n) else if lines[0] == "l" then Decrement(n) else n;
      StepsWrap(n);
      WrapKeeps(n);
      assert m == Wrap16(n + Delta(lines[0]));
      FinalNWraps(m, lines[1..]);
      WrapAdd(n + Delta(lines[0]), Net(lines[1..]));
    }
  }

  /** The final n of the dialog is n moved by the lines read before it stopped. */
  lemma {:induction false} DialogFinalN(paths: seq<string>, s: DialogState, lines: seq<string>)
    requires !s.terminated
    ensures Dialog(paths, s, lines).state.nRecent == FinalN(s.nRecent, lines[..FirstStop(lines)])
    decreases |lines|
  {
    var k := FirstStop(lines);
    if lines == [] || Stops(lines[0]) {
      if lines != [] {
        DialogAtStop(paths, s, lines);
      }
      assert lines[..k] == [];
    } else {
      var tail := lines[1..];
      StepMoves(paths, s, lines[0]);
      DialogFinalN(paths, Step(paths, s, lines[0]), tail);
      assert lines[..k][1..] == tail[..FirstStop(tail)];
    }
  }

  /**
   * The final n: the starting value plus one per "m" and minus one per "l"
   * read before the dialog stopped, modulo 2^16.
   */
  lemma {:induction false} DialogNetN(paths: seq<string>, s: DialogState, lines: seq<string>)
    requires !s.terminated
    ensures Dialog(paths, s, lines).state.nRecent == Wrap16(s.nRecent + Net(lines[..FirstStop(lines)]))
  {
    DialogFinalN(paths, s, lines);
    FinalNWraps(s.nRecent, lines[..FirstStop(lines)]);
  }

  /** Storing a value that already fits leaves it unchanged. */
  lemma {:induction false} WrapKeeps(n: U16)
    ensures Wrap16(n) == n
  {
  }

  /** Adding after a store is the same as storing the sum. */
  lemma {:induction false} WrapAdd(x: int, y: int)
    ensures Wrap16(Wrap16(x) + y) == Wrap16(x + y)
  {
  }

  /**
   * interactive_confirm_paths(paths, n_recent) run through dialog: each pass
   * recomputes recent_paths = paths[-n:], reads one line, resolves it against
   * the handler keys with from_letter and runs the handler; an invalid line
   * is reported and the pass repeats.  Returns recent_paths, or EOFError when
   * input runs out, and the caller's n_recent as the handlers left it.
   */
  method Confirm(paths: seq<string>, nRecent: U16, lines: seq<string>) returns (r: Result<seq<string>, InputError>, n: U16)
    ensures r.Err? <==> ConfirmOutcome(paths, nRecent, lines).exhausted
    ensures r.Ok? ==> r.value == ConfirmOutcome(paths, nRecent, lines).state.recentPaths
    ensures n == ConfirmOutcome(paths, nRecent, lines).state.nRecent
    ensures r.Ok? ==> r.value == [] || r.value == Window(paths, n)
  {
    n := nRecent;
    var recentPaths: seq<string> := [];
    var terminated := false;
    var i := 0;
    while !terminated
      invariant 0 <= i <= |lines|
      invariant ConfirmOutcome(paths, nRecent, lines) == Dialog(paths, DialogState(n, recentPaths, terminated), lines[i..])
      decreases |lines| - i
    {
      ghost var before := DialogState(n, recentPaths, terminated);
      recentPaths := Window(paths, n);
      if i == |lines| {
        DialogSpec(paths, DialogState(nRecent, [], false), lines);
        return Err(EndOfInput), n;
      }
      var choice := FromLetter(lines[i], DialogChoices, []);
      assert lines[i..][1..] == lines[i + 1..];
      assert Dialog(paths, before, lines[i..]) == Dialog(paths, Step(paths, before, lines[i]), lines[i + 1..]);
      i := i + 1;
      if choice.Ok? {
        match choice.value
        case Yes =>
          terminated := true;
        case OneLess =>
          n := Decrement(n);
        case OneMore =>
          n := Increment(n);
        case Quit =>
          recentPaths := [];
          terminated := true;
        case No =>
          assert false;
      }
    }
    DialogSpec(paths, DialogState(nRecent, [], false), lines);
    r := Ok(recentPaths);
  }
}
