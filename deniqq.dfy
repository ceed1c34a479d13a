/**
 * Removal of Hebrew vowel points ("niqqud") from a text: the character class
 * of deniqq.py and the substitution that deletes every member of it.
 */
module Niqqud {

  /** Membership in the class U+05B0..U+05B9, U+05BB, U+05BC, U+05C1, U+05C2. */
  predicate IsNiqqud(c: char)
  {
    ('\U{05B0}' <= c <= '\U{05B9}') || c == '\U{05BB}' || c == '\U{05BC}' || c == '\U{05C1}' || c == '\U{05C2}'
  }

  /** True when no character of `s` belongs to the niqqud class. */
  predicate NiqqudFree(s: string)
  {
    forall i :: 0 <= i < |s| ==> !IsNiqqud(s[i])
  }

  /**
   * The text with every niqqud character deleted, scanning left to right as
   * the regular-expression substitution does.
   */
  function Deniqq(text: string): (r: string)
    ensures NiqqudFree(r)
    ensures |r| <= |text|
  {
    if text == [] then []
    else
      var rest := Deniqq(text[1..]);
      assert text == [text[0]] + text[1..];
      if IsNiqqud(text[0]) then rest else [text[0]] + rest
  }

  /** Deleting niqqud from a concatenation deletes it from each part. */
  lemma {:induction false} DeniqqDistributes(a: string, b: string)
    ensures Deniqq(a + b) == Deniqq(a) + Deniqq(b)
  {
    if a == [] {
      assert a + b == b;
    } else {
      assert (a + b)[1..] == a[1..] + b;
      DeniqqDistributes(a[1..], b);
    }
  }

  /** Every character outside the class keeps its number of occurrences; the class's characters vanish. */
  lemma {:induction false} DeniqqCounts(text: string)
    ensures forall c :: multiset(Deniqq(text))[c] == if IsNiqqud(c) then 0 else multiset(text)[c]
  {
    if text != [] {
      DeniqqCounts(text[1..]);
      assert text == [text[0]] + text[1..];
    }
  }

  /** The filter leaves a text unchanged exactly when the text holds no niqqud. */
  lemma {:induction false} DeniqqIdentity(text: string)
    ensures Deniqq(text) == text <==> NiqqudFree(text)
  {
    if text != [] {
      DeniqqIdentity(text[1..]);
      if IsNiqqud(text[0]) {
        assert |Deniqq(text)| < |text|;
      }
    }
  }

  /** Applying the filter twice is the same as applying it once. */
  lemma {:induction false} DeniqqIdempotent(text: string)
    ensures Deniqq(Deniqq(text)) == Deniqq(text)
  {
    DeniqqIdentity(Deniqq(text));
  }

  /** A single character is deleted exactly when it is in the class. */
  lemma {:induction false} DeniqqSingle(c: char)
    ensures Deniqq([c]) == if IsNiqqud(c) then [] else [c]
  {
    assert [c][1..] == [];
  }

  /**
   * The filter keeps every other character in its original relative order:
   * any split of the text into a prefix, one character and a suffix shows up
   * in the result as the filtered prefix, that character if it is kept, and
   * the filtered suffix.
   */
  lemma {:induction false} DeniqqKeepsOrder(text: string, i: nat)
    requires i < |text|
    ensures Deniqq(text) == Deniqq(text[..i]) + (if IsNiqqud(text[i]) then [] else [text[i]]) + Deniqq(text[i + 1..])
  {
    var before, at, after := text[..i], [text[i]], text[i + 1..];
    assert text == before + (at + after);
    DeniqqDistributes(before, at + after);
    DeniqqDistributes(at, after);
    DeniqqSingle(text[i]);
    var kept := if IsNiqqud(text[i]) then [] else [text[i]];
    assert Deniqq(text) == Deniqq(before) + (kept + Deniqq(after));
    assert Deniqq(before) + (kept + Deniqq(after)) == Deniqq(before) + kept + Deniqq(after);
  }

  /** Code points adjacent to the class are kept. */
  lemma {:induction false} NeighboursKept()
    ensures Deniqq("\U{05AF}\U{05BA}\U{05BD}\U{05C0}\U{05C3}\U{05C7}") == "\U{05AF}\U{05BA}\U{05BD}\U{05C0}\U{05C3}\U{05C7}"
  {
    DeniqqIdentity("\U{05AF}\U{05BA}\U{05BD}\U{05C0}\U{05C3}\U{05C7}");
  }
}
