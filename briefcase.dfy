/** The briefcase easter egg (class BriefcaseEasterEgg in script.js): a sliding-window
    matcher. Every keydown appends the lowercased key to a buffer that keeps only the
    last two entries; whenever the buffer joined into one string equals "as", the
    briefcase's visibility flips. The buffer is never cleared after a match. */
module Briefcase {

  /** The keys to type, joined with '' before comparing. */
  const Target: seq<string> := ["a", "s"]

  /** How many entries the buffer keeps. */
  const Window: nat := 2

  /** `toLowerCase` on one character, for the ASCII letters. */
  function LowerChar(c: char): (r: char)
    ensures 'A' <= c <= 'Z' ==> 'a' <= r <= 'z' && r as int - 'a' as int == c as int - 'A' as int
    ensures !('A' <= c <= 'Z') ==> r == c
  {
    if 'A' <= c <= 'Z' then (c as int - 'A' as int + 'a' as int) as char else c
  }

  /** `toLowerCase` on a key string. */
  function Lower(s: string): (r: string)
    ensures |r| == |s|
    ensures forall i :: 0 <= i < |r| ==> !('A' <= r[i] <= 'Z')
    ensures forall i :: 0 <= i < |s| && !('A' <= s[i] <= 'Z') ==> r[i] == s[i]
    ensures forall i :: 0 <= i < |s| && 'A' <= s[i] <= 'Z' ==>
      r[i] == (s[i] as int - 'A' as int + 'a' as int) as char
  {
    seq(|s|, i requires 0 <= i < |s| => LowerChar(s[i]))
  }

  /** `Array.prototype.join('')`. */
  function Join(parts: seq<string>): (r: string)
    ensures |parts| == 0 ==> r == ""
    ensures |parts| == 1 ==> r == parts[0]
    ensures |parts| == 2 ==> r == parts[0] + parts[1]
  {
    if parts == [] then "" else parts[0] + Join(parts[1..])
  }

  /** The buffer compared against the target, joined as the source joins it. */
  predicate Matches(buffer: seq<string>)
    ensures buffer == [] ==> !Matches(buffer)
  {
    Join(buffer) == Join(Target)
  }

  /** The buffer matches exactly when its entries joined together spell "as". */
  lemma MatchesSpellsAs(buffer: seq<string>)
    ensures Matches(buffer) <==> Join(buffer) == "as"
  {
    assert Join(Target) == "as" by {
      assert Target[1..][1..] == [];
    }
  }

  /** One keydown: push the lowercased key, then drop the oldest entry once the
      buffer is longer than the window. */
  function Push(buffer: seq<string>, key: string): (r: seq<string>)
    ensures r != [] && r[|r| - 1] == Lower(key)
    ensures |buffer| < Window ==> r == buffer + [Lower(key)]
    ensures |buffer| >= Window ==> |r| == |buffer| && r[..|r| - 1] == buffer[1..]
  {
    var pushed := buffer + [Lower(key)];
    if |pushed| > Window then pushed[1..] else pushed
  }

  /** The buffer after the keys `keys`, starting from the empty buffer. */
  function Buffer(keys: seq<string>): (b: seq<string>)
    ensures |b| == if |keys| < Window then |keys| else Window
  {
    if keys == [] then [] else Push(Buffer(keys[..|keys| - 1]), keys[|keys| - 1])
  }

  /** Every key of a sequence lowercased. */
  function LowerAll(keys: seq<string>): (r: seq<string>)
    ensures |r| == |keys|
  {
    seq(|keys|, i requires 0 <= i < |keys| => Lower(keys[i]))
  }

  /** Whether the last key of `keys` flips the briefcase. */
  predicate Toggles(keys: seq<string>)
    requires keys != []
    ensures Toggles(keys) ==>
      var last := Lower(keys[|keys| - 1]);
      |last| <= 2 && last == "as"[2 - |last|..]
  {
    var b := Buffer(keys);
    JoinSnoc(b[..|b| - 1], b[|b| - 1]);
    assert b == b[..|b| - 1] + [b[|b| - 1]];
    MatchesSpellsAs(b);
    Matches(b)
  }

  /** Joining with one more entry appends that entry. */
  lemma {:induction false} JoinSnoc(parts: seq<string>, x: string)
    ensures Join(parts + [x]) == Join(parts) + x
  {
    if parts != [] {
      JoinSnoc(parts[1..], x);
      assert (parts + [x])[1..] == parts[1..] + [x];
    }
  }

  /** How many flips the keys `keys` cause. */
  function ToggleCount(keys: seq<string>): nat
  {
    if keys == [] then 0
    else ToggleCount(keys[..|keys| - 1]) + (if Toggles(keys) then 1 else 0)
  }

  /** Whether the briefcase is visible after the keys `keys` (it starts hidden). */
  predicate Visible(keys: seq<string>)
    ensures Visible(keys) ==> ToggleCount(keys) > 0
  {
    if keys == [] then false
    else Visible(keys[..|keys| - 1]) != Toggles(keys)
  }

  /** The buffer holds the last (up to) two keys seen, lowercased, in arrival order. */
  lemma {:induction false} BufferIsLastKeys(keys: seq<string>)
    ensures Buffer(keys) == LowerAll(keys[|keys| - |Buffer(keys)|..])
  {
    if keys != [] {
      var init, last := keys[..|keys| - 1], keys[|keys| - 1];
      BufferIsLastKeys(init);
      var b := Buffer(init);
      var t := init[|init| - |b|..];
      assert Buffer(keys) == Push(b, last);
      if |init| < Window {
        assert t == init && keys == init + [last];
        LowerAllSnoc(init, last);
      } else {
        assert t[1..] == [init[|init| - 1]];
        assert keys[|keys| - Window..] == [init[|init| - 1], last];
        LowerAllSnoc(t[1..], last);
        LowerAllTail(t);
      }
    }
  }

  /** Lowercasing one more key appends its lowercase form. */
  lemma LowerAllSnoc(keys: seq<string>, key: string)
    ensures LowerAll(keys + [key]) == LowerAll(keys) + [Lower(key)]
  {
    assert forall i :: 0 <= i < |keys| ==> (keys + [key])[i] == keys[i];
  }

  /** Lowercasing commutes with dropping the oldest key. */
  lemma LowerAllTail(keys: seq<string>)
    requires keys != []
    ensures LowerAll(keys[1..]) == LowerAll(keys)[1..]
  {
  }

  /** A two-entry buffer of non-empty keys matches exactly when it is `a` then `s`. */
  lemma MatchesPair(buffer: seq<string>)
    requires |buffer| == 2
    requires buffer[0] != "" && buffer[1] != ""
    ensures Matches(buffer) <==> buffer == Target
  {
    assert Join(buffer) == buffer[0] + buffer[1] by {
      assert buffer[1..][1..] == [];
    }
    assert Join(Target) == "as" by {
      assert Target[1..][1..] == [];
    }
    if Matches(buffer) {
      assert |buffer[0]| + |buffer[1]| == 2;
      assert buffer[0] == (buffer[0] + buffer[1])[..1];
      assert buffer[1] == (buffer[0] + buffer[1])[1..];
    }
  }

  /** Case does not matter: `A` then `S` flips the briefcase as `a` then `s` do. */
  lemma UpperCaseMatches(prefix: seq<string>)
    ensures Toggles(prefix + ["A", "S"])
  {
    var keys := prefix + ["A", "S"];
    BufferIsLastKeys(keys);
    assert keys[|keys| - 2..] == ["A", "S"];
    assert Lower("A") == "a" && Lower("S") == "s";
    assert LowerAll(["A", "S"]) == Target;
  }

  /** Visibility is the parity of the number of flips. */
  lemma {:induction false} VisibleIsParity(keys: seq<string>)
    ensures Visible(keys) <==> ToggleCount(keys) % 2 == 1
  {
    if keys != [] {
      var init := keys[..|keys| - 1];
      VisibleIsParity(init);
      ParityStep(Visible(init), ToggleCount(init), Toggles(keys));
    }
  }

  /** Flipping a parity bit once more keeps it equal to the parity of the count. */
  lemma ParityStep(v: bool, c: nat, t: bool)
    requires v <==> c % 2 == 1
    ensures (v != t) <==> (c + (if t then 1 else 0)) % 2 == 1
  {
  }

  /** Two keys entered after `prefix`: the buffer is exactly those two, lowercased. */
  lemma BufferAfterTwo(prefix: seq<string>, x: string, y: string)
    ensures Buffer(prefix + [x, y]) == [Lower(x), Lower(y)]
  {
    var keys := prefix + [x, y];
    BufferIsLastKeys(keys);
    assert keys[|keys| - 2..] == [x, y];
  }

  /** Once two non-empty keys have been seen, the briefcase flips exactly when the last
      two keys, lowercased, are `a` then `s`. */
  lemma TogglesIffLastTwo(keys: seq<string>)
    requires |keys| >= 2
    requires keys[|keys| - 2] != "" && keys[|keys| - 1] != ""
    ensures Toggles(keys) <==> Lower(keys[|keys| - 2]) == "a" && Lower(keys[|keys| - 1]) == "s"
  {
    var x, y := keys[|keys| - 2], keys[|keys| - 1];
    assert keys == keys[..|keys| - 2] + [x, y];
    BufferAfterTwo(keys[..|keys| - 2], x, y);
    MatchesPair([Lower(x), Lower(y)]);
  }

  /** The very first key alone flips the briefcase only if it lowercases to the whole
      string "as" (the comparison is on the joined buffer). */
  lemma FirstKeyToggles(key: string)
    ensures Toggles([key]) <==> Lower(key) == "as"
  {
    assert [key][..0] == [];
    assert Buffer([key]) == [Lower(key)];
    assert Join([Lower(key)]) == Lower(key) by {
      assert [Lower(key)][1..] == [];
    }
    assert Join(Target) == "as" by {
      assert Target[1..][1..] == [];
    }
  }

  /** A key that lowercases to `a` never flips the briefcase: the joined buffer then
      ends in 'a', and "as" does not. */
  lemma NoFlipOnA(prefix: seq<string>, key: string)
    requires Lower(key) == "a"
    ensures !Toggles(prefix + [key])
  {
    var keys := prefix + [key];
    var b := Buffer(keys);
    assert b[|b| - 1] == "a";
    JoinEndsWithLast(b);
    assert Join(Target) == "as" by {
      assert Target[1..][1..] == [];
    }
  }

  /** An `a` followed by an `s` flips the briefcase, whatever came before. */
  lemma FlipOnAS(prefix: seq<string>)
    ensures Toggles(prefix + ["a", "s"])
  {
    BufferAfterTwo(prefix, "a", "s");
    assert Lower("a") == "a" && Lower("s") == "s";
  }

  /** One more key adds its flip to the count and to the visibility. */
  lemma StepOne(prefix: seq<string>, key: string)
    ensures ToggleCount(prefix + [key]) == ToggleCount(prefix) + (if Toggles(prefix + [key]) then 1 else 0)
    ensures Visible(prefix + [key]) == (Visible(prefix) != Toggles(prefix + [key]))
  {
    assert (prefix + [key])[..|prefix|] == prefix;
  }

  /** Typing `a` then `s` after any history flips the briefcase once, on the `s`. */
  lemma AsTogglesOnce(prefix: seq<string>)
    ensures ToggleCount(prefix + ["a", "s"]) == ToggleCount(prefix) + 1
    ensures Visible(prefix + ["a", "s"]) == !Visible(prefix)
  {
    assert Lower("a") == "a";
    var k1 := prefix + ["a"];
    StepOne(prefix, "a");
    StepOne(k1, "s");
    NoFlipOnA(prefix, "a");
    assert k1 + ["s"] == prefix + ["a", "s"];
    FlipOnAS(prefix);
  }

  /** Because the buffer is not cleared, typing `a s a s` after any history flips the
      briefcase exactly twice (on each `s`) and leaves its visibility as it was. */
  lemma AsAsTogglesTwice(prefix: seq<string>)
    ensures ToggleCount(prefix + ["a", "s"] + ["a", "s"]) == ToggleCount(prefix) + 2
    ensures Visible(prefix + ["a", "s"] + ["a", "s"]) == Visible(prefix)
  {
    AsTogglesOnce(prefix);
    AsTogglesOnce(prefix + ["a", "s"]);
  }

  /** A joined buffer whose last entry is non-empty ends with that entry's last character. */
  lemma {:induction false} JoinEndsWithLast(parts: seq<string>)
    requires parts != [] && parts[|parts| - 1] != ""
    ensures Join(parts) != "" && Join(parts)[|Join(parts)| - 1] == parts[|parts| - 1][|parts[|parts| - 1]| - 1]
  {
    if |parts| > 1 {
      JoinEndsWithLast(parts[1..]);
    }
  }

  /** The BriefcaseEasterEgg component; `isVisible` stands for the 'visible' class on
      the briefcase element. */
  class BriefcaseEasterEgg {
    var isVisible: bool
    var secretCode: seq<string>
    ghost var keysSeen: seq<string>

    ghost predicate Valid()
      reads this
    {
      secretCode == Buffer(keysSeen) && isVisible == Visible(keysSeen)
    }

    constructor ()
      ensures Valid() && keysSeen == []
      ensures !isVisible && secretCode == []
    {
      isVisible := false;
      secretCode := [];
      keysSeen := [];
    }

    /** The keydown listener. */
    method OnKeyDown(key: string) returns (toggled: bool)
      requires Valid()
      modifies this
      ensures Valid() && keysSeen == old(keysSeen) + [key]
      ensures secretCode == Push(old(secretCode), key)
      ensures |secretCode| <= Window
      ensures toggled == Matches(secretCode)
      ensures isVisible == (old(isVisible) != toggled)
    {
      secretCode := secretCode + [Lower(key)];
      if |secretCode| > Window {
        secretCode := secretCode[1..];
      }
      assert secretCode == Push(old(secretCode), key);
      toggled := Join(secretCode) == Join(Target);
      if toggled {
        Toggle();
      }
      keysSeen := keysSeen + [key];
      assert keysSeen[..|keysSeen| - 1] == old(keysSeen);
      assert secretCode == Buffer(keysSeen);
      StepOne(old(keysSeen), key);
    }

    /** `toggle`: flip visibility. */
    method Toggle()
      modifies this`isVisible
      ensures isVisible == !old(isVisible)
    {
      isVisible := !isVisible;
    }
  }
}
