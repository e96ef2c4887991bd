/**
  The Konami-code recogniser that the page's `keydown` listener implements.

  The recogniser's whole state is `konamiIndex`, the number of keys of the
  code matched so far. A key equal to the expected one advances the index; any
  other key resets it to 0 with no restart credit, even when that key is the
  first key of the code. Completing the code fires the easter egg and resets
  the index to 0.
 */
module Konami {

  /** The ten key names, compared by exact string equality with `KeyboardEvent.key`. */
  const Code: seq<string> := ["ArrowUp", "ArrowUp", "ArrowDown", "ArrowDown",
                              "ArrowLeft", "ArrowRight", "ArrowLeft", "ArrowRight",
                              "b", "a"]

  /** The result of handling one key: the new index and whether the easter egg fired. */
  datatype Outcome = Outcome(index: nat, fired: bool)

  /** The result of handling a run of keys: the final index and how often the egg fired. */
  datatype Tally = Tally(index: nat, fires: nat)

  /** True when `key` is the key the recogniser waits for at `index`. Past the
      end of the code the expected key is `undefined`, which no key string equals. */
  predicate Expects(index: nat, key: string) {
    index < |Code| && Code[index] == key
  }

  /** One `keydown` event. */
  function Step(index: nat, key: string): (r: Outcome)
    ensures r.index < |Code|
    ensures r.fired <==> index == |Code| - 1 && key == Code[|Code| - 1]
    ensures r.fired ==> r.index == 0
    ensures Expects(index, key) && index + 1 < |Code| ==> r.index == index + 1
    ensures !Expects(index, key) ==> r.index == 0 && !r.fired
  {
    if Expects(index, key) then
      var next := index + 1;
      if next == |Code| then Outcome(0, true) else Outcome(next, false)
    else
      Outcome(0, false)
  }

  /** Handles `keys` in order, starting from `index`. Each completed code costs
      ten keys, so the fires and the final index together never exceed the
      starting index plus the number of keys. */
  function Feed(index: nat, keys: seq<string>): (r: Tally)
    ensures keys != [] ==> r.index < |Code|
    ensures r.index + r.fires * |Code| <= index + |keys|
    decreases |keys|
  {
    if keys == [] then
      Tally(index, 0)
    else
      var o := Step(index, keys[0]);
      var t := Feed(o.index, keys[1..]);
      Tally(t.index, t.fires + if o.fired then 1 else 0)
  }

  /** `k` back-to-back copies of the code. */
  function Repeat(k: nat): (r: seq<string>)
    ensures |r| == k * |Code|
  {
    if k == 0 then [] else Code + Repeat(k - 1)
  }

  /** True when `s` ends with `t`. */
  predicate EndsWith(s: seq<string>, t: seq<string>) {
    |t| <= |s| && s[|s| - |t|..] == t
  }

  /** Feeding two runs one after the other is feeding their concatenation. */
  lemma {:induction false} FeedAppend(index: nat, a: seq<string>, b: seq<string>)
    ensures Feed(index, a + b)
         == Tally(Feed(Feed(index, a).index, b).index,
                  Feed(index, a).fires + Feed(Feed(index, a).index, b).fires)
    decreases |a|
  {
    if a == [] {
      assert a + b == b;
    } else {
      assert (a + b)[0] == a[0];
      assert (a + b)[1..] == a[1..] + b;
      FeedAppend(Step(index, a[0]).index, a[1..], b);
    }
  }

  /** Feeding one more key is one more step. */
  lemma FeedSnoc(index: nat, a: seq<string>, key: string)
    ensures Feed(index, a + [key]).index == Step(Feed(index, a).index, key).index
    ensures Feed(index, a + [key]).fires
         == Feed(index, a).fires + if Step(Feed(index, a).index, key).fired then 1 else 0
  {
    FeedAppend(index, a, [key]);
    var s := Step(Feed(index, a).index, key);
    assert [key][1..] == [];
    assert Feed(Feed(index, a).index, [key]) == Tally(s.index, if s.fired then 1 else 0);
  }

  /** The index after any run that starts from 0 is the length of a suffix of the
      keys that equals a prefix of the code: the recogniser only counts keys it has
      actually seen, in the code's order and contiguously. */
  lemma {:induction false} IndexIsMatchedSuffix(keys: seq<string>)
    ensures Feed(0, keys).index <= |keys|
    ensures Feed(0, keys).index <= |Code|
    ensures EndsWith(keys, Code[..Feed(0, keys).index])
    decreases |keys|
  {
    if keys == [] {
    } else {
      var init := keys[..|keys| - 1];
      var key := keys[|keys| - 1];
      assert keys == init + [key];
      IndexIsMatchedSuffix(init);
      FeedSnoc(0, init, key);
      var i := Feed(0, init).index;
      var s := Step(i, key);
      if Expects(i, key) && !s.fired {
        assert Code[..i + 1] == Code[..i] + [key];
        calc {
          keys[|keys| - (i + 1)..];
          (init + [key])[|init| - i..];
          init[|init| - i..] + [key];
        }
      }
    }
  }

  /** Soundness: the easter egg fires only on a key that completes the code,
      that is, right after the last ten keys spelled it out. */
  lemma FireEndsCode(w: seq<string>)
    requires w != []
    requires Step(Feed(0, w[..|w| - 1]).index, w[|w| - 1]).fired
    ensures EndsWith(w, Code)
  {
    var init, key := w[..|w| - 1], w[|w| - 1];
    IndexIsMatchedSuffix(init);
    var i := Feed(0, init).index;
    assert i == |Code| - 1 && key == Code[i];
    assert Code == Code[..i] + [key];
    calc {
      w[|w| - |Code|..];
      { assert w == init + [key]; }
      (init + [key])[|init| - i..];
      init[|init| - i..] + [key];
    }
  }

  /** Each proper prefix of the code, fed from 0, is counted in full without firing. */
  lemma {:induction false} FeedCodePrefix(k: nat)
    requires k < |Code|
    ensures Feed(0, Code[..k]) == Tally(k, 0)
  {
    if k > 0 {
      FeedCodePrefix(k - 1);
      assert Code[..k] == Code[..k - 1] + [Code[k - 1]];
      FeedSnoc(0, Code[..k - 1], Code[k - 1]);
    }
  }

  /** The exact ten-key code, fed from 0, fires once and leaves the index at 0. */
  lemma FeedCode()
    ensures Feed(0, Code) == Tally(0, 1)
  {
    var n := |Code| - 1;
    FeedCodePrefix(n);
    assert Code == Code[..n] + [Code[n]];
    FeedSnoc(0, Code[..n], Code[n]);
  }

  /** Typing the code and then anything else: one activation, then the rest as
      if typed from a fresh start. */
  lemma FeedAfterCode(rest: seq<string>)
    ensures Feed(0, Code + rest) == Tally(Feed(0, rest).index, Feed(0, rest).fires + 1)
  {
    FeedCode();
    FeedAppend(0, Code, rest);
  }

  /** `k` back-to-back copies of the code fire exactly `k` times and end at index 0. */
  lemma {:induction false} FeedRepeat(k: nat)
    ensures Feed(0, Repeat(k)) == Tally(0, k)
  {
    if k > 0 {
      FeedRepeat(k - 1);
      FeedAfterCode(Repeat(k - 1));
    }
  }

  /** The code typed when nothing is half-matched fires, and the index ends at 0. */
  lemma CodeAfterPrefix(pre: seq<string>)
    requires Feed(0, pre).index == 0
    ensures Feed(0, pre + Code) == Tally(0, Feed(0, pre).fires + 1)
  {
    FeedAppend(0, pre, Code);
    FeedCode();
  }

  /** The code opens with two `ArrowUp`s and an `ArrowDown`, and has no other `ArrowUp`. */
  lemma CodeShape()
    ensures Code == ["ArrowUp", "ArrowUp", "ArrowDown"] + Code[3..]
    ensures forall j :: 2 <= j < |Code| ==> Code[j] != "ArrowUp"
  {
  }

  /** The code typed while part of it is already matched never fires: its first
      `ArrowUp` either breaks the partial match or extends `ArrowUp` to a second
      one, and the `ArrowDown` after that cannot follow. The recogniser is then
      back at 0 with no `ArrowUp` left to restart from. */
  lemma CodeFromNonZero(i: nat)
    requires 0 < i < |Code|
    ensures Feed(i, Code) == Tally(0, 0)
  {
    CodeShape();
    var rest := Code[3..];
    forall j | 0 <= j < |rest|
      ensures rest[j] != Code[0]
    {
      assert rest[j] == Code[j + 3];
    }
    NoProgressWithoutArrowUp(rest);
    var down := ["ArrowDown"] + rest;
    var k := ["ArrowUp"] + down;
    assert Code == ["ArrowUp"] + k;
    assert (["ArrowUp"] + k)[1..] == k && k[1..] == down && down[1..] == rest;
    if i == 1 {
      assert Step(1, "ArrowUp") == Outcome(2, false);
      assert Step(2, "ArrowUp") == Outcome(0, false);
      assert Step(0, "ArrowDown") == Outcome(0, false);
      assert Feed(0, down) == Feed(0, rest);
      assert Feed(2, k) == Feed(0, down);
    } else {
      assert Step(i, "ArrowUp") == Outcome(0, false);
      assert Step(0, "ArrowUp") == Outcome(1, false);
      assert Step(1, "ArrowDown") == Outcome(0, false);
      assert Feed(1, down) == Feed(0, rest);
      assert Feed(0, k) == Feed(1, down);
    }
  }

  /** Over any run of keys, typing the code next fires exactly when the
      recogniser is at index 0, and in either case leaves it at index 0. */
  lemma CodeFiresIffFreshStart(pre: seq<string>)
    ensures Feed(0, pre + Code).index == 0
    ensures Feed(0, pre + Code).fires == Feed(0, pre).fires + if Feed(0, pre).index == 0 then 1 else 0
  {
    var i := Feed(0, pre).index;
    if i == 0 {
      CodeAfterPrefix(pre);
    } else {
      FeedAppend(0, pre, Code);
      CodeFromNonZero(i);
    }
  }

  /** `FeedSnoc` for a run given whole: its last key is one more step after the
      rest. Stated on `w` itself so that callers whose hypotheses mention
      `Feed(0, w)` need not relate `w` to a concatenation. */
  lemma FeedLast(index: nat, w: seq<string>)
    requires w != []
    ensures Feed(index, w).index == Step(Feed(index, w[..|w| - 1]).index, w[|w| - 1]).index
    ensures Feed(index, w).fires
         == Feed(index, w[..|w| - 1]).fires
            + if Step(Feed(index, w[..|w| - 1]).index, w[|w| - 1]).fired then 1 else 0
  {
    assert w == w[..|w| - 1] + [w[|w| - 1]];
    FeedSnoc(index, w[..|w| - 1], w[|w| - 1]);
  }

  /** A run of keys whose last key fires, fed from index 0, ends with the code. */
  lemma FiredRunEndsWithCode(w: seq<string>)
    requires w != []
    requires Feed(0, w).fires > Feed(0, w[..|w| - 1]).fires
    ensures EndsWith(w, Code)
  {
    FeedLast(0, w);
    FireEndsCode(w);
  }

  /** Ten keys fed from index 0 fire the easter egg exactly when they are the
      code, and at most once. */
  lemma WindowFiresIffCode(w: seq<string>)
    requires |w| == |Code|
    ensures Feed(0, w).fires <= 1
    ensures Feed(0, w).fires == 1 <==> w == Code
  {
    var t, u := Feed(0, w), Feed(0, w[..|w| - 1]);
    assert t.index + t.fires * 10 <= 10;
    assert u.index + u.fires * 10 <= 9;
    if t.fires == 1 {
      FiredRunEndsWithCode(w);
      assert w[|w| - |Code|..] == w;
    }
    if w == Code {
      FeedCode();
    }
  }

  /** A stray extra `ArrowUp` before the code is not forgiven: the third
      `ArrowUp` is compared with `ArrowDown`, resets the index, and the rest of
      the code then never matches from index 0, so the easter egg does not fire. */
  lemma StrayKeyBeforeCodeNeverFires()
    ensures Feed(0, ["ArrowUp"] + Code) == Tally(0, 0)
  {
    var tail := Code[2..];
    assert forall j :: 0 <= j < |tail| ==> tail[j] != "ArrowUp";
    assert ["ArrowUp"] + Code == ["ArrowUp", "ArrowUp", "ArrowUp"] + tail;
    ThirdArrowUpResets(tail);
    NoProgressWithoutArrowUp(tail);
  }

  /** Three `ArrowUp`s from index 0 match two keys of the code and then reset:
      whatever follows is handled as if typed from a fresh start. */
  lemma ThirdArrowUpResets(rest: seq<string>)
    ensures Feed(0, ["ArrowUp", "ArrowUp", "ArrowUp"] + rest) == Feed(0, rest)
  {
    var k3 := ["ArrowUp", "ArrowUp", "ArrowUp"] + rest;
    var k2 := ["ArrowUp", "ArrowUp"] + rest;
    var k1 := ["ArrowUp"] + rest;
    assert k3[0] == k2[0] == k1[0] == "ArrowUp";
    assert k3[1..] == k2 && k2[1..] == k1 && k1[1..] == rest;
    assert Step(0, "ArrowUp") == Outcome(1, false);
    assert Step(1, "ArrowUp") == Outcome(2, false);
    assert Step(2, "ArrowUp") == Outcome(0, false);
    assert Feed(2, k1) == Feed(0, rest);
    assert Feed(1, k2) == Feed(2, k1);
    assert Feed(0, k3) == Feed(1, k2);
  }

  /** From index 0, keys none of which is `ArrowUp` leave the index at 0 and never fire. */
  lemma {:induction false} NoProgressWithoutArrowUp(keys: seq<string>)
    requires forall j :: 0 <= j < |keys| ==> keys[j] != Code[0]
    ensures Feed(0, keys) == Tally(0, 0)
    decreases |keys|
  {
    if keys != [] {
      NoProgressWithoutArrowUp(keys[1..]);
    }
  }
}
