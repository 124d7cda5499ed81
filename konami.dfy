/** The Konami-code easter egg (class KonamiCode in script.js): a strict-progressive
    matcher. A cursor walks a fixed ten-key code; a key equal to the expected one
    advances it, any other key sends it back to 0, and the key that completes the
    code fires the activation and resets the cursor. */
module Konami {

  /** The code, key names as `KeyboardEvent.key` reports them. */
  const Code: seq<string> := [
    "ArrowUp", "ArrowUp",
    "ArrowDown", "ArrowDown",
    "ArrowLeft", "ArrowRight",
    "ArrowLeft", "ArrowRight",
    "b", "a"
  ]

  /** What one keydown does: the new cursor and whether `activate` ran. */
  datatype KeyResult = KeyResult(cursor: nat, activated: bool)

  /** One keydown seen with the cursor at `cursor`. */
  function OnKey(cursor: nat, key: string): (r: KeyResult)
    requires cursor < |Code|
    ensures r.cursor < |Code|
    ensures r.activated <==> cursor == |Code| - 1 && key == Code[cursor]
    ensures r.activated ==> r.cursor == 0
    ensures key != Code[cursor] ==> r == KeyResult(0, false)
    ensures r.cursor > 0 <==> key == Code[cursor] && cursor + 1 < |Code|
    ensures r.cursor > 0 ==> r.cursor == cursor + 1
  {
    if key == Code[cursor] then
      if cursor + 1 == |Code| then KeyResult(0, true) else KeyResult(cursor + 1, false)
    else
      KeyResult(0, false)
  }

  /** The cursor after the keys `keys`, starting from 0. */
  function Cursor(keys: seq<string>): (c: nat)
    ensures c < |Code|
    ensures c <= |keys|
  {
    if keys == [] then 0
    else OnKey(Cursor(keys[..|keys| - 1]), keys[|keys| - 1]).cursor
  }

  /** Whether the last key of `keys` runs `activate`. */
  predicate Fires(keys: seq<string>)
    requires keys != []
    ensures Fires(keys) ==> |keys| >= |Code| && keys[|keys| - 1] == Code[|Code| - 1]
  {
    OnKey(Cursor(keys[..|keys| - 1]), keys[|keys| - 1]).activated
  }

  /** How many times `activate` runs while `keys` are typed: every activation
      consumes ten keys of its own, and the cursor counts keys not yet consumed. */
  function Activations(keys: seq<string>): (n: nat)
    ensures n * |Code| + Cursor(keys) <= |keys|
  {
    if keys == [] then 0
    else Activations(keys[..|keys| - 1]) + (if Fires(keys) then 1 else 0)
  }

  /** The last `Cursor(keys)` keys are the first `Cursor(keys)` symbols of the code. */
  lemma {:induction false} CursorTracksCode(keys: seq<string>)
    ensures keys[|keys| - Cursor(keys)..] == Code[..Cursor(keys)]
  {
    if keys != [] && Cursor(keys) > 0 {
      var init := keys[..|keys| - 1];
      var c := Cursor(init);
      CursorTracksCode(init);
      assert Cursor(keys) == c + 1;
      ExtendMatch(keys, Code, c);
    }
  }

  /** A match of the first `c` symbols of `code` that ends just before the last key
      grows by one when the last key is `code[c]`. */
  lemma ExtendMatch(keys: seq<string>, code: seq<string>, c: nat)
    requires c < |code| && c < |keys|
    requires keys[..|keys| - 1][|keys| - 1 - c..] == code[..c]
    requires keys[|keys| - 1] == code[c]
    ensures keys[|keys| - (c + 1)..] == code[..c + 1]
  {
    assert keys[|keys| - (c + 1)..] == keys[..|keys| - 1][|keys| - 1 - c..] + [keys[|keys| - 1]];
  }

  /** Dropping the last key of `prefix + code[..k]` leaves `prefix + code[..k - 1]`. */
  lemma DropLastOfSlice(prefix: seq<string>, code: seq<string>, k: nat)
    requires 0 < k <= |code|
    ensures (prefix + code[..k])[..|prefix| + k - 1] == prefix + code[..k - 1]
    ensures (prefix + code[..k])[|prefix| + k - 1] == code[k - 1]
  {
    assert code[..k] == code[..k - 1] + [code[k - 1]];
  }

  /** A positive cursor was reached one step at a time: `j` keys earlier it was `j` less. */
  lemma {:induction false} CursorBacktrack(keys: seq<string>, j: nat)
    requires j <= Cursor(keys)
    ensures Cursor(keys[..|keys| - j]) == Cursor(keys) - j
  {
    if j > 0 {
      var init := keys[..|keys| - 1];
      assert OnKey(Cursor(init), keys[|keys| - 1]).cursor == Cursor(keys) > 0;
      assert Cursor(init) + 1 == Cursor(keys);
      CursorBacktrack(init, j - 1);
      assert init[..|init| - (j - 1)] == keys[..|keys| - j];
    } else {
      assert keys[..|keys|] == keys;
    }
  }

  /** From cursor 0, the first `k` symbols of the code bring the cursor to `k`. */
  lemma {:induction false} FeedCode(prefix: seq<string>, k: nat)
    requires Cursor(prefix) == 0 && k < |Code|
    ensures Cursor(prefix + Code[..k]) == k
  {
    if k == 0 {
      assert prefix + Code[..0] == prefix;
    } else {
      FeedCode(prefix, k - 1);
      DropLastOfSlice(prefix, Code, k);
      var keys := prefix + Code[..k];
      assert Cursor(keys) == OnKey(k - 1, Code[k - 1]).cursor;
      assert OnKey(k - 1, Code[k - 1]) == KeyResult(k, false);
    }
  }

  /** A key that fires ends ten keys equal to the code, typed from cursor 0. */
  lemma FiresOnlyAfterCode(keys: seq<string>)
    requires keys != [] && Fires(keys)
    ensures |keys| >= |Code| && keys[|keys| - |Code|..] == Code && Cursor(keys[..|keys| - |Code|]) == 0
  {
    var n := |Code|;
    var init := keys[..|keys| - 1];
    assert Cursor(init) == n - 1;
    CursorTracksCode(init);
    CursorBacktrack(init, n - 1);
    assert init[..|init| - (n - 1)] == keys[..|keys| - n];
    assert keys[|keys| - 1] == Code[n - 1];
    ExtendMatch(keys, Code, n - 1);
    assert Code[..n] == Code;
  }

  /** Ten keys equal to the code, typed from cursor 0, fire on the last of them. */
  lemma CodeFires(prefix: seq<string>)
    requires Cursor(prefix) == 0
    ensures Fires(prefix + Code)
  {
    var n := |Code|;
    var keys := prefix + Code;
    FeedCode(prefix, n - 1);
    assert keys[..|keys| - 1] == prefix + Code[..n - 1];
    assert keys[|keys| - 1] == Code[n - 1];
  }

  /** `activate` runs on a key exactly when that key ends ten keys equal to the code
      AND the cursor was 0 before the first of them: progress made before a
      mismatch never counts. */
  lemma FiresIff(keys: seq<string>)
    requires keys != []
    ensures Fires(keys) <==>
      |keys| >= |Code| && keys[|keys| - |Code|..] == Code && Cursor(keys[..|keys| - |Code|]) == 0
  {
    var n := |Code|;
    if Fires(keys) {
      FiresOnlyAfterCode(keys);
    } else if |keys| >= n && keys[|keys| - n..] == Code && Cursor(keys[..|keys| - n]) == 0 {
      var prefix := keys[..|keys| - n];
      assert keys == prefix + Code;
      CodeFires(prefix);
      assert false;
    }
  }

  /** Three `ArrowUp`s leave the cursor at 0: the third one does not match `Code[2]`,
      and the reset does not look at whether it matches `Code[0]`. */
  lemma ThreeArrowUpsReset()
    ensures Cursor(["ArrowUp", "ArrowUp", "ArrowUp"]) == 0
  {
    var keys := ["ArrowUp", "ArrowUp", "ArrowUp"];
    assert keys[..2][..1] == ["ArrowUp"];
    assert keys[..2][..0] == [];
  }

  /** A stream that ends with the whole code but started it right after an extra
      `ArrowUp` never activates. */
  lemma OverlapDoesNotFire()
    ensures !Fires(["ArrowUp"] + Code)
  {
    var keys := ["ArrowUp"] + Code;
    FiresIff(keys);
    assert keys[..|keys| - |Code|] == ["ArrowUp"];
    assert ["ArrowUp"][..0] == [];
  }

  /** Nine correct keys and then a wrong one lose all progress; replaying the code from
      scratch activates on its tenth key and on no earlier key of the replay. */
  lemma DeviationThenReplay(wrong: string, j: nat)
    requires wrong != Code[|Code| - 1]
    requires 0 < j <= |Code|
    ensures Cursor(Code[..|Code| - 1] + [wrong]) == 0
    ensures Fires(Code[..|Code| - 1] + [wrong] + Code[..j]) <==> j == |Code|
  {
    var n := |Code|;
    var head := Code[..n - 1];
    FeedCode([], n - 1);
    assert [] + head == head;
    var spoilt := head + [wrong];
    assert spoilt[..|spoilt| - 1] == head;
    assert Cursor(spoilt) == OnKey(n - 1, wrong).cursor == 0;
    FeedCode(spoilt, j - 1);
    DropLastOfSlice(spoilt, Code, j);
    assert Fires(spoilt + Code[..j]) == OnKey(j - 1, Code[j - 1]).activated;
  }

  /** The KonamiCode component. `activations` stands for the effects of `activate`
      (confetti and a message), which are not modelled. */
  class KonamiCode {
    var currentIndex: nat
    var activations: nat
    ghost var keysSeen: seq<string>

    ghost predicate Valid()
      reads this
    {
      currentIndex == Cursor(keysSeen) && activations == Activations(keysSeen)
    }

    constructor ()
      ensures Valid() && keysSeen == []
      ensures currentIndex == 0 && activations == 0
    {
      currentIndex := 0;
      activations := 0;
      keysSeen := [];
    }

    /** The keydown listener. */
    method OnKeyDown(key: string) returns (activated: bool)
      requires Valid()
      modifies this
      ensures Valid() && keysSeen == old(keysSeen) + [key]
      ensures activated == Fires(keysSeen)
      ensures currentIndex < |Code|
      ensures key == Code[old(currentIndex)] && !activated ==> currentIndex == old(currentIndex) + 1
      ensures key != Code[old(currentIndex)] || activated ==> currentIndex == 0
      ensures activations == old(activations) + (if activated then 1 else 0)
    {
      activated := false;
      if key == Code[currentIndex] {
        currentIndex := currentIndex + 1;
        if currentIndex == |Code| {
          Activate();
          activated := true;
          currentIndex := 0;
        }
      } else {
        currentIndex := 0;
      }
      keysSeen := keysSeen + [key];
      assert keysSeen[..|keysSeen| - 1] == old(keysSeen);
    }

    /** `activate`, reduced to counting its runs. */
    method Activate()
      modifies this`activations
      ensures activations == old(activations) + 1
    {
      activations := activations + 1;
    }
  }
}
