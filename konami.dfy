/** The Konami-code easter egg: a counter over a fixed ten-key sequence
    that advances on the expected key, drops to 0 on any other key, and
    shows the easter egg (and drops to 0) when it reaches ten. */
module Konami {

  /** The keys to type, in order, as `KeyboardEvent.key` reports them. */
  const KonamiCode: seq<string> :=
    ["ArrowUp", "ArrowUp", "ArrowDown", "ArrowDown", "ArrowLeft",
     "ArrowRight", "ArrowLeft", "ArrowRight", "b", "a"]

  /** The counter after one keystroke, and whether that keystroke showed
      the easter egg. */
  datatype StepResult = StepResult(index: nat, fired: bool)

  /** One keystroke from counter `index`. */
  function Step(index: nat, key: string): (r: StepResult)
    requires index < |KonamiCode|
    ensures r.index < |KonamiCode|
    ensures key != KonamiCode[index] ==> r == StepResult(0, false)
    ensures r.fired <==> index == |KonamiCode| - 1 && key == KonamiCode[index]
    ensures r.fired ==> r.index == 0
    ensures key == KonamiCode[index] && index + 1 < |KonamiCode| ==>
      r == StepResult(index + 1, false)
  {
    if key == KonamiCode[index] then
      if index + 1 == |KonamiCode| then StepResult(0, true)
      else StepResult(index + 1, false)
    else
      StepResult(0, false)
  }

  /** The counter of a matcher that has seen `keys` since the page loaded. */
  function Counter(keys: seq<string>): (r: nat)
    ensures r < |KonamiCode|
    ensures r <= |keys|
  {
    if keys == [] then 0
    else Step(Counter(keys[..|keys| - 1]), keys[|keys| - 1]).index
  }

  /** Whether the last key of `keys` showed the easter egg. */
  function Fires(keys: seq<string>): (fired: bool)
    ensures fired ==> Counter(keys) == 0
    ensures fired ==> keys != [] && keys[|keys| - 1] == KonamiCode[|KonamiCode| - 1]
  {
    keys != [] && Step(Counter(keys[..|keys| - 1]), keys[|keys| - 1]).fired
  }

  /** Extending a run of the first c - 1 code keys by the next code key
      gives a run of the first c code keys; what came before is unchanged. */
  lemma ExtendRun(keys: seq<string>, c: nat)
    requires 1 <= c <= |keys| && c <= |KonamiCode|
    requires keys[..|keys| - 1][|keys| - c..] == KonamiCode[..c - 1]
    requires keys[|keys| - 1] == KonamiCode[c - 1]
    ensures keys[|keys| - c..] == KonamiCode[..c]
    ensures keys[..|keys| - 1][..|keys| - c] == keys[..|keys| - c]
  {
    var run := keys[|keys| - c..];
    forall j | 0 <= j < c
      ensures run[j] == KonamiCode[..c][j]
    {
      if j < c - 1 {
        assert run[j] == keys[..|keys| - 1][|keys| - c..][j];
      }
    }
  }

  /** A counter of i means: the last i keys are the first i keys of the
      code, and just before them the counter stood at 0. */
  lemma {:induction false} CounterMeansSuffix(keys: seq<string>)
    ensures keys[|keys| - Counter(keys)..] == KonamiCode[..Counter(keys)]
    ensures Counter(keys[..|keys| - Counter(keys)]) == 0
  {
    var c := Counter(keys);
    if c == 0 {
      assert keys[..|keys|] == keys;
    } else {
      var prefix := keys[..|keys| - 1];
      var p := Counter(prefix);
      assert p == c - 1 && keys[|keys| - 1] == KonamiCode[p];
      CounterMeansSuffix(prefix);
      assert |prefix| - p == |keys| - c;
      assert prefix[|keys| - c..] == KonamiCode[..c - 1];
      ExtendRun(keys, c);
      assert Counter(prefix[..|keys| - c]) == 0;
    }
  }

  /** Dropping the last key of a run of the first c code keys leaves a run
      of the first c - 1 code keys; what came before is unchanged. */
  lemma ShrinkRun(keys: seq<string>, c: nat)
    requires 1 <= c <= |keys| && c <= |KonamiCode|
    requires keys[|keys| - c..] == KonamiCode[..c]
    ensures keys[..|keys| - 1][|keys| - c..] == KonamiCode[..c - 1]
    ensures keys[|keys| - 1] == KonamiCode[c - 1]
    ensures keys[..|keys| - 1][..|keys| - c] == keys[..|keys| - c]
  {
    var shorter := keys[..|keys| - 1][|keys| - c..];
    forall j | 0 <= j < c - 1
      ensures shorter[j] == KonamiCode[..c - 1][j]
    {
      assert shorter[j] == keys[|keys| - c..][j];
    }
    assert keys[|keys| - 1] == keys[|keys| - c..][c - 1];
  }

  /** From counter 0, typing the first k keys of the code (k < 10) brings
      the counter to k. */
  lemma {:induction false} CounterAfterCode(keys: seq<string>, k: nat)
    requires k < |KonamiCode| && k <= |keys|
    requires keys[|keys| - k..] == KonamiCode[..k]
    requires Counter(keys[..|keys| - k]) == 0
    ensures Counter(keys) == k
  {
    if k == 0 {
      assert keys[..|keys|] == keys;
    } else {
      ShrinkRun(keys, k);
      var prefix := keys[..|keys| - 1];
      CounterAfterCode(prefix, k - 1);
      assert Step(k - 1, keys[|keys| - 1]) == StepResult(k, false);
    }
  }

  /** Showing the easter egg means the last ten keys were the code, typed
      from counter 0. */
  lemma FiresOnlyAfterCode(keys: seq<string>)
    requires Fires(keys)
    ensures |keys| >= |KonamiCode|
    ensures keys[|keys| - |KonamiCode|..] == KonamiCode
    ensures Counter(keys[..|keys| - |KonamiCode|]) == 0
  {
    var n := |KonamiCode|;
    var prefix := keys[..|keys| - 1];
    assert Counter(prefix) == n - 1 && keys[|keys| - 1] == KonamiCode[n - 1];
    CounterMeansSuffix(prefix);
    ExtendRun(keys, n);
    assert KonamiCode[..n] == KonamiCode;
  }

  /** Typing the whole code from counter 0 shows the easter egg on its
      last key. */
  lemma FiresAfterCode(keys: seq<string>)
    requires |keys| >= |KonamiCode|
    requires keys[|keys| - |KonamiCode|..] == KonamiCode
    requires Counter(keys[..|keys| - |KonamiCode|]) == 0
    ensures Fires(keys)
  {
    var n := |KonamiCode|;
    assert KonamiCode[..n] == KonamiCode;
    ShrinkRun(keys, n);
    CounterAfterCode(keys[..|keys| - 1], n - 1);
  }

  /** The easter egg is shown exactly on the key that completes ten
      consecutive matching keys typed from counter 0, and the counter is
      0 again afterwards. */
  lemma FiresIff(keys: seq<string>)
    ensures Fires(keys) <==>
      |keys| >= |KonamiCode| &&
      keys[|keys| - |KonamiCode|..] == KonamiCode &&
      Counter(keys[..|keys| - |KonamiCode|]) == 0
    ensures Fires(keys) ==> Counter(keys) == 0
  {
    if Fires(keys) {
      FiresOnlyAfterCode(keys);
    }
    if |keys| >= |KonamiCode| && keys[|keys| - |KonamiCode|..] == KonamiCode
       && Counter(keys[..|keys| - |KonamiCode|]) == 0 {
      FiresAfterCode(keys);
    }
  }

  /** A key other than the expected one resets the counter to 0, even when
      it is the first key of the code; so "Up, Up, Up" ends at 0, not 1. */
  lemma MismatchResets(keys: seq<string>, key: string)
    requires key != KonamiCode[Counter(keys)]
    ensures Counter(keys + [key]) == 0
    ensures !Fires(keys + [key])
  {
    assert (keys + [key])[..|keys|] == keys;
  }

  /** The smallest case of the reset rule: three Up keys from a fresh
      counter leave it at 0. */
  lemma UpUpUpResets()
    ensures Counter(["ArrowUp", "ArrowUp", "ArrowUp"]) == 0
  {
    var keys := ["ArrowUp", "ArrowUp", "ArrowUp"];
    assert keys[..2][..1][..0] == [];
    assert Counter(keys[..2][..1]) == 1;
    assert Counter(keys[..2]) == 2;
  }

  /** The `keydown` listener with its `konamiIndex` closure variable. */
  class KonamiMatcher {
    var konamiIndex: nat
    /** Every key the listener has received, oldest first. */
    ghost var history: seq<string>

    ghost predicate Valid()
      reads this
    {
      konamiIndex == Counter(history)
    }

    constructor ()
      ensures Valid() && history == [] && konamiIndex == 0
    {
      konamiIndex := 0;
      history := [];
    }

    /** Handles one `keydown`; `fired` says whether `showEasterEgg` ran. */
    method OnKey(key: string) returns (fired: bool)
      requires Valid()
      modifies this
      ensures Valid()
      ensures history == old(history) + [key]
      ensures fired == Fires(history)
      ensures konamiIndex < |KonamiCode|
      ensures key != KonamiCode[old(konamiIndex)] ==> konamiIndex == 0 && !fired
      ensures key == KonamiCode[old(konamiIndex)] && old(konamiIndex) + 1 < |KonamiCode| ==>
        konamiIndex == old(konamiIndex) + 1 && !fired
      ensures key == KonamiCode[old(konamiIndex)] && old(konamiIndex) + 1 == |KonamiCode| ==>
        konamiIndex == 0 && fired
    {
      fired := false;
      if key == KonamiCode[konamiIndex] {
        konamiIndex := konamiIndex + 1;
        if konamiIndex == |KonamiCode| {
          fired := true;
          konamiIndex := 0;
        }
      } else {
        konamiIndex := 0;
      }
      history := history + [key];
      assert history[..|history| - 1] == old(history);
    }
  }
}
