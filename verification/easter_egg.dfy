/**
  What `activateEasterEgg` schedules, and the `keydown` listener that calls it.

  Timers are modelled as the list of callbacks the function registers, each
  with its delay in milliseconds relative to the call; the clock itself and
  what the callbacks draw on screen are not part of the model.
 */
module EasterEgg {
  import Konami

  /** The two kinds of callback the easter egg registers. */
  datatype Action = SpawnConfetti | RemoveMessage

  /** A `setTimeout` registration: run `action` after `delay` milliseconds. */
  datatype Timer = Timer(delay: nat, action: Action)

  /** Number of confetti pieces per activation. */
  const ConfettiCount: nat := 50

  /** Milliseconds between two consecutive confetti spawns. */
  const ConfettiInterval: nat := 30

  /** Milliseconds the "You found the secret!" message stays on screen. */
  const MessageLifetime: nat := 3000

  /** The timers registered by the first `n` rounds of the confetti loop, in
      registration order: round `i` spawns one piece after `i * 30` ms. */
  function ConfettiTimers(n: nat): (r: seq<Timer>)
    ensures |r| == n
    ensures forall i :: 0 <= i < n ==> r[i].action == SpawnConfetti
    ensures forall i :: 0 <= i < n ==> r[i].delay == i * ConfettiInterval
  {
    if n == 0 then [] else ConfettiTimers(n - 1) + [Timer((n - 1) * ConfettiInterval, SpawnConfetti)]
  }

  /** Every timer one activation registers: the whole confetti loop, then the
      removal of the message overlay. */
  function Activation(): (r: seq<Timer>)
    ensures |r| == ConfettiCount + 1
    ensures forall i :: 0 <= i < ConfettiCount ==> r[i] == Timer(i * 30, SpawnConfetti)
    ensures r[ConfettiCount] == Timer(3000, RemoveMessage)
  {
    ConfettiTimers(ConfettiCount) + [Timer(MessageLifetime, RemoveMessage)]
  }

  /** How many of `ts` spawn a confetti piece. */
  function CountConfetti(ts: seq<Timer>): (r: nat)
    ensures r <= |ts|
  {
    if ts == [] then 0
    else (if ts[0].action == SpawnConfetti then 1 else 0) + CountConfetti(ts[1..])
  }

  /** Counting distributes over concatenation. */
  lemma {:induction false} CountConfettiAppend(a: seq<Timer>, b: seq<Timer>)
    ensures CountConfetti(a + b) == CountConfetti(a) + CountConfetti(b)
    decreases |a|
  {
    if a == [] {
      assert a + b == b;
    } else {
      assert (a + b)[1..] == a[1..] + b;
      CountConfettiAppend(a[1..], b);
    }
  }

  /** A list of confetti timers counts every element. */
  lemma {:induction false} CountAllConfetti(ts: seq<Timer>)
    requires forall i :: 0 <= i < |ts| ==> ts[i].action == SpawnConfetti
    ensures CountConfetti(ts) == |ts|
    decreases |ts|
  {
    if ts != [] {
      CountAllConfetti(ts[1..]);
    }
  }

  /** Of the timers one activation registers, exactly the 50 of the confetti
      loop spawn confetti; the message removal does not. */
  lemma ActivationConfetti()
    ensures CountConfetti(Activation()) == ConfettiCount
  {
    var c := ConfettiTimers(ConfettiCount);
    var m := [Timer(MessageLifetime, RemoveMessage)];
    CountAllConfetti(c);
    CountConfettiAppend(c, m);
    assert m[1..] == [];
    assert CountConfetti(m) == 0;
  }

  /** The confetti delays of one activation rise strictly from 0 to 1470 ms, and
      the message outlives every spawn. */
  lemma ActivationDelaysIncrease()
    ensures forall i, j :: 0 <= i < j < ConfettiCount ==> Activation()[i].delay < Activation()[j].delay
    ensures Activation()[0].delay == 0
    ensures Activation()[ConfettiCount - 1].delay == 1470
    ensures forall i :: 0 <= i < ConfettiCount ==> Activation()[i].delay < Activation()[ConfettiCount].delay
  {
  }

  /** The page state the `keydown` listener touches. */
  datatype KeyState = KeyState(index: nat, scheduled: seq<Timer>)

  /** The `keydown` listener: one step of the recogniser, and the easter egg's
      timers when the step completes the code. */
  function KeyDown(index: nat, key: string): (r: KeyState)
    ensures r.index < |Konami.Code|
    ensures r.scheduled != [] <==> index == |Konami.Code| - 1 && key == Konami.Code[|Konami.Code| - 1]
    ensures r.scheduled != [] ==> r.scheduled == Activation() && r.index == 0
    ensures Konami.Expects(index, key) && index + 1 < |Konami.Code| ==> r.index == index + 1
    ensures !Konami.Expects(index, key) ==> r == KeyState(0, [])
  {
    var o := Konami.Step(index, key);
    KeyState(o.index, if o.fired then Activation() else [])
  }

  /** The listener applied to `keys` in order; the timers are listed in the
      order they were registered (each activation's delays are relative to its
      own key press). */
  function KeyDowns(index: nat, keys: seq<string>): (r: KeyState)
    ensures keys != [] ==> r.index < |Konami.Code|
    ensures |r.scheduled| <= (ConfettiCount + 1) * |keys|
    decreases |keys|
  {
    if keys == [] then KeyState(index, [])
    else
      var s := KeyDown(index, keys[0]);
      var t := KeyDowns(s.index, keys[1..]);
      KeyState(t.index, s.scheduled + t.scheduled)
  }

  /** Over any run of keys, the listener ends at the recogniser's index and
      registers exactly 51 timers, 50 of them confetti spawns, per activation. */
  lemma {:induction false} KeyDownsScheduleActivations(index: nat, keys: seq<string>)
    ensures KeyDowns(index, keys).index == Konami.Feed(index, keys).index
    ensures |KeyDowns(index, keys).scheduled| == 51 * Konami.Feed(index, keys).fires
    ensures CountConfetti(KeyDowns(index, keys).scheduled) == 50 * Konami.Feed(index, keys).fires
    decreases |keys|
  {
    if keys != [] {
      var o := Konami.Step(index, keys[0]);
      var s := KeyDown(index, keys[0]);
      var t := KeyDowns(s.index, keys[1..]);
      var f := Konami.Feed(o.index, keys[1..]);
      KeyDownsScheduleActivations(s.index, keys[1..]);
      CountConfettiAppend(s.scheduled, t.scheduled);
      assert KeyDowns(index, keys) == KeyState(t.index, s.scheduled + t.scheduled);
      if o.fired {
        ActivationConfetti();
        assert Konami.Feed(index, keys) == Konami.Tally(f.index, f.fires + 1);
      } else {
        assert s.scheduled == [];
        assert Konami.Feed(index, keys) == f;
      }
    }
  }

  /** Typing the code `k` times in a row fires the easter egg `k` times:
      50 * k confetti spawns in all. */
  lemma RepeatedCodeConfetti(k: nat)
    ensures CountConfetti(KeyDowns(0, Konami.Repeat(k)).scheduled) == ConfettiCount * k
    ensures KeyDowns(0, Konami.Repeat(k)).index == 0
  {
    Konami.FeedRepeat(k);
    KeyDownsScheduleActivations(0, Konami.Repeat(k));
  }
}
