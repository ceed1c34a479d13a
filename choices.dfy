/**
 * The Choice enumeration of cli.py: each member's one-letter key and display
 * text, the description of a list of choices, and the resolution of a typed
 * line back to a member.
 */
module Choices {
  import opened Wrappers
  import Controller

  datatype Choice = Yes | No | Quit | OneMore | OneLess

  /** The error from_letter raises: ValueError('Invalid choice!'). */
  datatype ChoiceError = InvalidChoice

  /** All members in declaration order (iterating the enumeration class). */
  const AllChoices: seq<Choice> := [Yes, No, Quit, OneMore, OneLess]

  /** The enumeration member's name. */
  function Name(c: Choice): string
  {
    match c
    case Yes => "YES"
    case No => "NO"
    case Quit => "QUIT"
    case OneMore => "ONE_MORE"
    case OneLess => "ONE_LESS"
  }

  /** The text after the last '_' of `s` (all of `s` when it has none): the last element of s.split('_'). */
  function LastSegment(s: string): string
  {
    if s == [] || s[|s| - 1] == '_' then []
    else LastSegment(s[..|s| - 1]) + [s[|s| - 1]]
  }

  /** str.lower() on one character of an enumeration name (ASCII letters). */
  function Lower(c: char): char
  {
    if 'A' <= c <= 'Z' then (c as int - 'A' as int + 'a' as int) as char else c
  }

  /** The last segment of a name is its word after the final '_', or the whole name when there is none. */
  lemma {:induction false} LastSegmentOfWord(prefix: string, word: string)
    requires forall i :: 0 <= i < |word| ==> word[i] != '_'
    requires prefix == [] || prefix[|prefix| - 1] == '_'
    ensures LastSegment(prefix + word) == word
    decreases |word|
  {
    if word == [] {
      assert prefix + word == prefix;
    } else {
      var n := |word| - 1;
      assert (prefix + word)[..|prefix + word| - 1] == prefix + word[..n];
      LastSegmentOfWord(prefix, word[..n]);
      assert word == word[..n] + [word[n]];
    }
  }

  /** The word of a member's name that one_letter() reads: the part after its last '_'. */
  function KeyWord(c: Choice): string
  {
    match c
    case Yes => "YES"
    case No => "NO"
    case Quit => "QUIT"
    case OneMore => "MORE"
    case OneLess => "LESS"
  }

  /** KeyWord(c) is the last element of name.split('_'), and it is never empty. */
  lemma {:induction false} KeyWordIsLastSegment(c: Choice)
    ensures KeyWord(c) == LastSegment(Name(c)) && KeyWord(c) != []
  {
    var prefix := if c == OneMore || c == OneLess then "ONE_" else "";
    assert Name(c) == prefix + KeyWord(c);
    LastSegmentOfWord(prefix, KeyWord(c));
  }

  /** one_letter(): the lower-cased first character of the last '_'-separated word of the name. */
  function OneLetter(c: Choice): (r: char)
    ensures r == match c
      case Yes => 'y'
      case No => 'n'
      case Quit => 'q'
      case OneMore => 'm'
      case OneLess => 'l'
  {
    Lower(KeyWord(c)[0])
  }

  /** __str__: the name lower-cased with '_' replaced by a space. */
  function Humanize(s: string): (r: string)
    ensures |r| == |s|
    ensures forall i :: 0 <= i < |s| ==> r[i] == if s[i] == '_' then ' ' else Lower(s[i])
  {
    if s == [] then [] else [if s[0] == '_' then ' ' else Lower(s[0])] + Humanize(s[1..])
  }

  /** The display text of a member. */
  function Display(c: Choice): (r: string)
    ensures r == match c
      case Yes => "yes"
      case No => "no"
      case Quit => "quit"
      case OneMore => "one more"
      case OneLess => "one less"
  {
    Humanize(Name(c))
  }

  /** The one-letter keys are pairwise distinct, so a key names at most one member. */
  lemma {:induction false} OneLetterInjective(a: Choice, b: Choice)
    ensures OneLetter(a) == OneLetter(b) <==> a == b
  {
  }

  /** Every member occurs in the declaration-order list. */
  lemma {:induction false} AllChoicesComplete()
    ensures forall c: Choice :: c in AllChoices
  {
    forall c: Choice ensures c in AllChoices {
      match c
      case Yes => assert AllChoices[0] == c;
      case No => assert AllChoices[1] == c;
      case Quit => assert AllChoices[2] == c;
      case OneMore => assert AllChoices[3] == c;
      case OneLess => assert AllChoices[4] == c;
    }
  }

  /** `choices if choices else cls`: an empty list stands for every member. */
  function Candidates(choices: seq<Choice>): (r: seq<Choice>)
    ensures r != []
    ensures choices != [] ==> r == choices
    ensures choices == [] ==> r == AllChoices
  {
    if choices != [] then choices else AllChoices
  }

  /**
   * The exclude list as from_letter and describe_choices keep it after
   * `if choices and exclude: exclude = []`, tested on the already-substituted
   * candidate list.
   */
  function KeptExclusions(candidates: seq<Choice>, exclude: seq<Choice>): seq<Choice>
  {
    if candidates != [] && exclude != [] then [] else exclude
  }

  /**
   * As written, the candidate list is never empty when the test runs, so the
   * exclude list is always dropped.
   */
  lemma {:induction false} ExcludeAlwaysDropped(choices: seq<Choice>, exclude: seq<Choice>)
    ensures KeptExclusions(Candidates(choices), exclude) == []
  {
  }

  /**
   * The evidently intended rule (the one interactive_from_letter applies):
   * exclude is dropped only when the caller gave both lists.
   */
  function IntendedExclusions(choices: seq<Choice>, exclude: seq<Choice>): (r: seq<Choice>)
    ensures choices == [] ==> r == exclude
    ensures choices != [] ==> r == []
  {
    if choices != [] && exclude != [] then [] else exclude
  }

  /** The candidates that are not excluded, in order. */
  function Listed(candidates: seq<Choice>, exclude: seq<Choice>): (r: seq<Choice>)
    ensures |r| <= |candidates|
    ensures forall c :: c in r <==> c in candidates && c !in exclude
  {
    if candidates == [] then []
    else (if candidates[0] in exclude then [] else [candidates[0]]) + Listed(candidates[1..], exclude)
  }

  /** The filter keeps order: filtering a concatenation concatenates the filtered parts. */
  lemma {:induction false} ListedAppend(a: seq<Choice>, b: seq<Choice>, exclude: seq<Choice>)
    ensures Listed(a + b, exclude) == Listed(a, exclude) + Listed(b, exclude)
  {
    if a == [] {
      assert a + b == b;
    } else {
      assert (a + b)[0] == a[0];
      assert (a + b)[1..] == a[1..] + b;
      ListedAppend(a[1..], b, exclude);
    }
  }

  /** With nothing excluded every candidate is listed, in order and with its repeats. */
  lemma {:induction false} ListedNothingExcluded(candidates: seq<Choice>)
    ensures Listed(candidates, []) == candidates
  {
    if candidates != [] {
      ListedNothingExcluded(candidates[1..]);
    }
  }

  /**
   * The search of from_letter: the first candidate, in order, that is not
   * excluded and whose key equals the whole typed line.  Keys are distinct
   * (OneLetterInjective), so the member found is the only one with that key.
   */
  function FirstMatch(letter: string, candidates: seq<Choice>, exclude: seq<Choice>): (r: Result<Choice, ChoiceError>)
    ensures r.Ok? ==> r.value in candidates && r.value !in exclude && [OneLetter(r.value)] == letter
    ensures r.Err? <==> forall c :: c in candidates && c !in exclude ==> [OneLetter(c)] != letter
  {
    if candidates == [] then Err(InvalidChoice)
    else if candidates[0] !in exclude && [OneLetter(candidates[0])] == letter then Ok(candidates[0])
    else
      assert forall c :: c in candidates <==> c == candidates[0] || c in candidates[1..];
      FirstMatch(letter, candidates[1..], exclude)
  }

  /**
   * from_letter(letter, choices, exclude), as written: the search loop over
   * the candidates, skipping excluded ones, returning the first whose key is
   * the typed line and raising ValueError when none is.
   */
  method FromLetter(letter: string, choices: seq<Choice>, exclude: seq<Choice>) returns (r: Result<Choice, ChoiceError>)
    ensures r == FirstMatch(letter, Candidates(choices), [])
    ensures r.Ok? ==> [OneLetter(r.value)] == letter && (choices == [] || r.value in choices)
    ensures r.Err? <==> forall c :: c in Candidates(choices) ==> [OneLetter(c)] != letter
  {
    var candidates := Candidates(choices);
    var excluded := KeptExclusions(candidates, exclude);
    ExcludeAlwaysDropped(choices, exclude);
    for i := 0 to |candidates|
      invariant FirstMatch(letter, candidates, excluded) == FirstMatch(letter, candidates[i..], excluded)
    {
      var c := candidates[i];
      assert candidates[i..][1..] == candidates[i + 1..];
      if c in excluded {
        continue;
      }
      if [OneLetter(c)] == letter {
        return Ok(c);
      }
    }
    return Err(InvalidChoice);
  }

  /** One item of the description: "<letter> for <display text>". */
  function Entry(c: Choice): (r: string)
    ensures |r| > 0 && r[0] == OneLetter(c)
  {
    [OneLetter(c)] + " for " + Display(c)
  }

  /** The items of the description, one per listed member. */
  function Entries(listed: seq<Choice>): (r: seq<string>)
    ensures |r| == |listed|
    ensures forall i :: 0 <= i < |listed| ==> r[i] == Entry(listed[i])
  {
    seq(|listed|, i requires 0 <= i < |listed| => Entry(listed[i]))
  }

  /** ', '.join(...): the items separated by ", ", nothing for no items; Controller.Joined stands in for str.join. */
  function JoinComma(items: seq<string>): string
  {
    if items == [] then "" else Controller.Joined(items, ", ")
  }

  /** The members describe_choices lists, as written: the candidates less the kept exclusions. */
  function Shown(choices: seq<Choice>, exclude: seq<Choice>): seq<Choice>
  {
    var candidates := Candidates(choices);
    Listed(candidates, KeptExclusions(candidates, exclude))
  }

  /**
   * As written, describe_choices lists the caller's choices exactly as given,
   * or every member in declaration order when none are given.
   */
  lemma {:induction false} ShownAsWritten(choices: seq<Choice>, exclude: seq<Choice>)
    ensures Shown(choices, exclude) == Candidates(choices)
  {
    ExcludeAlwaysDropped(choices, exclude);
    ListedNothingExcluded(Candidates(choices));
  }

  /** describe_choices(choices, exclude), as written. */
  function Describe(choices: seq<Choice>, exclude: seq<Choice>): (r: string)
    ensures r == "" <==> Shown(choices, exclude) == []
  {
    var items := Entries(Shown(choices, exclude));
    JoinComma(items)
  }

  /** The description shows item i of the listed members at its offset. */
  lemma {:induction false} DescribeAt(choices: seq<Choice>, exclude: seq<Choice>, i: nat)
    requires i < |Shown(choices, exclude)|
    ensures Controller.Offset(Entries(Shown(choices, exclude)), ", ", i) + |Entries(Shown(choices, exclude))[i]|
      <= |Describe(choices, exclude)|
    ensures Describe(choices, exclude)[Controller.Offset(Entries(Shown(choices, exclude)), ", ", i)..
      Controller.Offset(Entries(Shown(choices, exclude)), ", ", i) + |Entries(Shown(choices, exclude))[i]|]
      == Entries(Shown(choices, exclude))[i]
  {
    var items := Entries(Shown(choices, exclude));
    assert Describe(choices, exclude) == Controller.Joined(items, ", ") by {
      DescribeJoins(choices, exclude);
    }
    Controller.JoinedAt(items, ", ", i);
  }

  /** Item i of the description starts with the one-letter key of listed member i. */
  lemma {:induction false} DescribeKeyAt(choices: seq<Choice>, exclude: seq<Choice>, i: nat)
    requires i < |Shown(choices, exclude)|
    ensures Controller.Offset(Entries(Shown(choices, exclude)), ", ", i) < |Describe(choices, exclude)|
    ensures Describe(choices, exclude)[Controller.Offset(Entries(Shown(choices, exclude)), ", ", i)]
      == OneLetter(Shown(choices, exclude)[i])
  {
    DescribeJoins(choices, exclude);
    Controller.JoinedHead(Entries(Shown(choices, exclude)), ", ", i);
  }

  /** A non-empty description is the listed items joined by ", ". */
  lemma {:induction false} DescribeJoins(choices: seq<Choice>, exclude: seq<Choice>)
    requires Shown(choices, exclude) != []
    ensures Describe(choices, exclude) == Controller.Joined(Entries(Shown(choices, exclude)), ", ")
  {
  }


  /**
   * from_letter accepts exactly the keys describe_choices lists for the same
   * arguments: a line resolves iff it is the key of some listed member.
   */
  lemma {:induction false} AcceptsExactlyDescribed(letter: string, choices: seq<Choice>, exclude: seq<Choice>)
    ensures FirstMatch(letter, Candidates(choices), KeptExclusions(Candidates(choices), exclude)).Ok? <==>
      exists c :: c in Shown(choices, exclude) && [Entry(c)[0]] == letter
  {
    var candidates := Candidates(choices);
    var kept := KeptExclusions(candidates, exclude);
    var r := FirstMatch(letter, candidates, kept);
    if r.Ok? {
      assert r.value in Shown(choices, exclude) && [Entry(r.value)[0]] == letter;
    } else {
      forall c | c in Shown(choices, exclude) ensures [Entry(c)[0]] != letter {
        assert c in candidates && c !in kept;
      }
    }
  }

  /**
   * The corrected resolution honours the exclude list when the caller gives
   * no explicit choices: an excluded member is never returned, and every
   * other member is found by its key.
   */
  lemma {:induction false} IntendedExcludeHonoured(letter: string, exclude: seq<Choice>)
    ensures var r := FirstMatch(letter, Candidates([]), IntendedExclusions([], exclude));
      (r.Ok? ==> r.value !in exclude) &&
      (r.Err? <==> forall c :: c !in exclude ==> [OneLetter(c)] != letter)
  {
    AllChoicesComplete();
  }

  /** Where no exclude list is given, or choices are, the as-written and corrected rules agree. */
  lemma {:induction false} IntendedAgreesWithoutExclusions(choices: seq<Choice>, exclude: seq<Choice>)
    requires exclude == [] || choices != []
    ensures IntendedExclusions(choices, exclude) == KeptExclusions(Candidates(choices), exclude)
  {
  }

  /** The input that shows the discrepancy: "y" with exclude [Yes] still resolves to Yes. */
  lemma {:induction false} ExcludedYesAccepted()
    ensures FirstMatch("y", Candidates([]), KeptExclusions(Candidates([]), [Yes])) == Ok(Yes)
    ensures FirstMatch("y", Candidates([]), IntendedExclusions([], [Yes])) == Err(InvalidChoice)
  {
    assert [OneLetter(Yes)] == "y";
    forall c: Choice | c != Yes ensures [OneLetter(c)] != "y" {
      assert OneLetter(c) != 'y';
    }
  }
}
