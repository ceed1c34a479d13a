/**
 * The line parser of interactive_from_gdrive_table_clipboard (cli.py): the
 * lines pasted from a table, read one input() at a time, become clip names.
 */
module Clipboard {
  import opened Wrappers
  import opened Niqqud

  /** The characters Python's str.strip() removes when given no argument. */
  predicate IsSpace(c: char)
  {
    ('\U{9}' <= c <= '\U{D}') || ('\U{1C}' <= c <= '\U{20}') || c == '\U{85}' || c == '\U{A0}' ||
    c == '\U{1680}' || ('\U{2000}' <= c <= '\U{200A}') || c == '\U{2028}' || c == '\U{2029}' ||
    c == '\U{202F}' || c == '\U{205F}' || c == '\U{3000}'
  }

  /** Index of the first character of `s` that is not whitespace (|s| if none). */
  function StripStart(s: string): (i: nat)
    ensures i <= |s|
  {
    if s == [] || !IsSpace(s[0]) then 0 else 1 + StripStart(s[1..])
  }

  /** Everything before StripStart(s) is whitespace, the character at it is not. */
  lemma {:induction false} StripStartSpec(s: string)
    ensures forall k :: 0 <= k < StripStart(s) ==> IsSpace(s[k])
    ensures StripStart(s) < |s| ==> !IsSpace(s[StripStart(s)])
  {
    if s != [] && IsSpace(s[0]) {
      StripStartSpec(s[1..]);
      assert forall k :: 1 <= k < |s| ==> s[k] == s[1..][k - 1];
    }
  }

  /** One past the last character of `s` that is not whitespace (0 if none). */
  function StripEnd(s: string): (j: nat)
    ensures j <= |s|
  {
    if s == [] || !IsSpace(s[|s| - 1]) then |s| else StripEnd(s[..|s| - 1])
  }

  /** Everything from StripEnd(s) on is whitespace, the character before it is not. */
  lemma {:induction false} StripEndSpec(s: string)
    ensures forall k :: StripEnd(s) <= k < |s| ==> IsSpace(s[k])
    ensures StripEnd(s) > 0 ==> !IsSpace(s[StripEnd(s) - 1])
  {
    if s != [] && IsSpace(s[|s| - 1]) {
      StripEndSpec(s[..|s| - 1]);
    }
  }

  /**
   * str.strip(): the text with leading and trailing whitespace removed.  The
   * result is a contiguous slice of `s`, everything outside it is whitespace,
   * and it neither starts nor ends with whitespace.
   */
  function Strip(s: string): string
  {
    var i, j := StripStart(s), StripEnd(s);
    if j <= i then [] else s[i..j]
  }

  /** What strip() returns is the slice of `s` between StripStart and StripEnd. */
  lemma {:induction false} StripSlice(s: string)
    ensures StripStart(s) + |Strip(s)| <= |s|
    ensures forall k :: 0 <= k < |Strip(s)| ==> Strip(s)[k] == s[StripStart(s) + k]
  {
  }

  /** Everything strip() cuts away is whitespace. */
  lemma {:induction false} StripOutside(s: string)
    ensures forall k :: 0 <= k < |s| && !(StripStart(s) <= k < StripStart(s) + |Strip(s)|) ==> IsSpace(s[k])
  {
    StripStartSpec(s);
    StripEndSpec(s);
  }

  /** What strip() returns neither starts nor ends with whitespace. */
  lemma {:induction false} StripEnds(s: string)
    ensures Strip(s) != [] ==> !IsSpace(Strip(s)[0]) && !IsSpace(Strip(s)[|Strip(s)| - 1])
  {
    StripStartSpec(s);
    StripEndSpec(s);
  }

  /** strip() returns the empty string exactly when `s` is all whitespace. */
  lemma {:induction false} StripEmpty(s: string)
    ensures Strip(s) == [] <==> forall k :: 0 <= k < |s| ==> IsSpace(s[k])
  {
    var i, j := StripStart(s), StripEnd(s);
    StripStartSpec(s);
    StripEndSpec(s);
    if i < |s| {
      assert !IsSpace(s[i]);
      assert i < j;
    }
  }

  /** Text that neither starts nor ends with whitespace is left as it is by strip(). */
  lemma {:induction false} StripTrimmed(s: string)
    requires s != [] ==> !IsSpace(s[0]) && !IsSpace(s[|s| - 1])
    ensures Strip(s) == s
  {
    if s != [] {
      assert StripStart(s) == 0;
      assert StripEnd(s) == |s|;
    }
  }

  /** Stripping twice is stripping once. */
  lemma {:induction false} StripIdempotent(s: string)
    ensures Strip(Strip(s)) == Strip(s)
  {
    StripEnds(s);
    StripTrimmed(Strip(s));
  }

  /** A kept line becomes deniqq(line).strip(). */
  function Clean(line: string): string
  {
    Strip(Deniqq(line))
  }

  /**
   * A cleaned name holds no niqqud (stripping only cuts the filtered text),
   * is no longer than the line, and neither starts nor ends with whitespace.
   */
  lemma {:induction false} CleanSpec(line: string)
    ensures NiqqudFree(Clean(line))
    ensures |Clean(line)| <= |line|
    ensures Clean(line) != [] ==> !IsSpace(Clean(line)[0]) && !IsSpace(Clean(line)[|Clean(line)| - 1])
  {
    var d := Deniqq(line);
    var r := Strip(d);
    StripSlice(d);
    StripEnds(d);
    forall k | 0 <= k < |r| ensures !IsNiqqud(r[k]) {
      assert r[k] == d[StripStart(d) + k];
    }
  }

  /**
   * Reading after the header: stop at the first empty line, clean every line
   * before it, and fail with EOFError when the lines run out first.
   */
  function Collect(rest: seq<string>): Result<seq<string>, InputError>
  {
    if rest == [] then Err(EndOfInput)
    else if rest[0] == "" then Ok([])
    else Prepend([Clean(rest[0])], Collect(rest[1..]))
  }

  /** Names already collected, put in front of those still to come. */
  function Prepend(names: seq<string>, rest: Result<seq<string>, InputError>): Result<seq<string>, InputError>
  {
    if rest.Ok? then Ok(names + rest.value) else rest
  }

  /** The names interactive_from_gdrive_table_clipboard returns for a stream of input lines. */
  function PastedNames(lines: seq<string>): Result<seq<string>, InputError>
  {
    if lines == [] then Err(EndOfInput) else Collect(lines[1..])
  }

  /** Reading fails exactly when no line is empty. */
  lemma {:induction false} CollectFails(rest: seq<string>)
    ensures Collect(rest).Err? <==> forall k :: 0 <= k < |rest| ==> rest[k] != ""
  {
    if rest != [] && rest[0] != "" {
      CollectFails(rest[1..]);
      assert forall k :: 1 <= k < |rest| ==> rest[k] == rest[1..][k - 1];
    }
  }

  /** When reading succeeds, the first empty line sits right after the names. */
  lemma {:induction false} CollectEnd(rest: seq<string>)
    requires Collect(rest).Ok?
    ensures |Collect(rest).value| < |rest| && rest[|Collect(rest).value|] == ""
    ensures forall k :: 0 <= k < |Collect(rest).value| ==> rest[k] != ""
  {
    if rest[0] != "" {
      var tail := rest[1..];
      CollectEnd(tail);
      assert |Collect(rest).value| == 1 + |Collect(tail).value|;
      assert forall k :: 1 <= k < |rest| ==> rest[k] == tail[k - 1];
    }
  }

  /** When reading succeeds, name k is line k cleaned. */
  lemma {:induction false} CollectCleaned(rest: seq<string>)
    requires Collect(rest).Ok?
    ensures |Collect(rest).value| <= |rest|
    ensures forall k :: 0 <= k < |Collect(rest).value| ==> Collect(rest).value[k] == Clean(rest[k])
  {
    if rest[0] != "" {
      var tail := rest[1..];
      var names := Collect(tail).value;
      CollectCleaned(tail);
      assert Collect(rest).value == [Clean(rest[0])] + names;
      assert forall k :: 1 <= k <= |names| ==> rest[k] == tail[k - 1];
    }
  }

  /** The clipboard contract stated on the whole input, header included. */
  lemma {:induction false} PastedNamesSpec(lines: seq<string>)
    ensures PastedNames(lines).Err? <==> forall k :: 1 <= k < |lines| ==> lines[k] != ""
    ensures PastedNames(lines).Ok? ==>
      |PastedNames(lines).value| + 1 < |lines| && lines[|PastedNames(lines).value| + 1] == ""
    ensures PastedNames(lines).Ok? ==> forall k :: 1 <= k <= |PastedNames(lines).value| ==> lines[k] != ""
    ensures PastedNames(lines).Ok? ==>
      forall k :: 0 <= k < |PastedNames(lines).value| ==> PastedNames(lines).value[k] == Clean(lines[k + 1])
  {
    if lines != [] {
      var rest := lines[1..];
      CollectFails(rest);
      var r := Collect(rest);
      if r.Ok? {
        CollectEnd(rest);
        CollectCleaned(rest);
      }
      if r.Ok? {
        forall k | 1 <= k <= |r.value| ensures lines[k] != "" {
          assert lines[k] == rest[k - 1];
        }
        forall k | 0 <= k < |r.value| ensures r.value[k] == Clean(lines[k + 1]) {
          assert lines[k + 1] == rest[k];
        }
      } else {
        forall k | 1 <= k < |lines| ensures lines[k] != "" {
          assert lines[k] == rest[k - 1];
        }
      }
    }
  }

  /** Prepending names one at a time is prepending them all at once. */
  lemma {:induction false} PrependTwice(names: seq<string>, name: string, rest: Result<seq<string>, InputError>)
    ensures Prepend(names, Prepend([name], rest)) == Prepend(names + [name], rest)
  {
    if rest.Ok? {
      assert names + ([name] + rest.value) == (names + [name]) + rest.value;
    }
  }

  /** Reading from position i: an empty line ends the names, any other line is cleaned and kept. */
  lemma {:induction false} CollectFrom(lines: seq<string>, i: nat)
    requires i < |lines|
    ensures lines[i] == "" ==> Collect(lines[i..]) == Ok([])
    ensures lines[i] != "" ==> Collect(lines[i..]) == Prepend([Clean(lines[i])], Collect(lines[i + 1..]))
  {
    assert lines[i..][0] == lines[i];
    assert lines[i..][1..] == lines[i + 1..];
  }

  /**
   * interactive_from_gdrive_table_clipboard: the first line (the table's
   * header) is dropped, reading stops at the first empty line after it, and
   * every line in between becomes deniqq(line).strip(), in order.  When the
   * input runs out before an empty line, input() raises EOFError.
   */
  method FromClipboard(lines: seq<string>) returns (r: Result<seq<string>, InputError>)
    ensures r == PastedNames(lines)
  {
    var names: seq<string> := [];
    var firstLine := true;
    var i := 0;
    while true
      invariant 0 <= i <= |lines|
      invariant firstLine <==> i == 0
      invariant firstLine ==> names == []
      invariant !firstLine ==> PastedNames(lines) == Prepend(names, Collect(lines[i..]))
      decreases |lines| - i
    {
      if i == |lines| {
        assert lines[i..] == [];
        return Err(EndOfInput);
      }
      var name := lines[i];
      if firstLine {
        assert PastedNames(lines) == Prepend([], Collect(lines[1..])) by {
          if Collect(lines[1..]).Ok? {
            assert [] + Collect(lines[1..]).value == Collect(lines[1..]).value;
          }
        }
        firstLine := false;
        i := i + 1;
        continue;
      }
      if name == "" {
        assert PastedNames(lines) == Ok(names) by {
          CollectFrom(lines, i);
          assert names + [] == names;
        }
        break;
      }
      assert PastedNames(lines) == Prepend(names + [Clean(name)], Collect(lines[i + 1..])) by {
        CollectFrom(lines, i);
        PrependTwice(names, Clean(name), Collect(lines[i + 1..]));
      }
      names := names + [Clean(name)];
      i := i + 1;
    }
    r := Ok(names);
  }
}
