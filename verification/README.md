# Stellar UI page script: Konami easter egg and mouse trail

This project models the stateful core of the page script `script.js`:

- the **Konami-code recogniser** behind the `keydown` listener (`konamiCode`,
  `konamiIndex`). It is a state machine over key names: a matching key advances
  the index, any other key resets it to 0, and completing the ten keys fires
  `activateEasterEgg` and resets the index (module `Konami`, `konami.dfy`);
- the **easter egg's schedule**. `activateEasterEgg` registers 50 confetti
  spawns 30 ms apart and removes its message after 3000 ms. The listener that
  calls it is modelled too (module `EasterEgg`, `easter_egg.dfy`);
- the **mouse-trail particle pool** `mouseParticles`. A spawn evicts the head
  when the pool holds more than ten particles, then appends the new particle.
  Each particle's one-second timer filters it out of the pool (module
  `MouseTrail`, `mouse_trail.dfy`);
- the **theme switch**: the theme loaded from storage and the toggle
  expression (module `Theme`, `theme.dfy`).

`wrappers.dfy` holds the shared `Option` type.

Every operation is a pure function on values. Events are lists: a list of key
names, or a list of spawn and timer events for the pool. Timers are not clocks.
A timer registration is a delay paired with the action it will run. A removal
timer is an event that may arrive at any later point, in any order relative to
other timers. The 5% random throttle on `mousemove` decides when a spawn
happens, so it is abstracted away: a spawn (`SpawnAt`) may occur at any point
of an event history. The other random choices (positions, hues, rotations and
durations) do not affect any modelled state, so they do not appear.

Particles are named by their creation number (`nat`). So distinct particles have
distinct ids, and later particles have larger ids. The lemmas about order assume
an event history whose spawn ids strictly increase (`MouseTrail.FreshSpawns`).
This is how fresh DOM elements behave.

Two places where the code does something a reader might not expect. The model
follows the code in both:

- The pool holds up to **eleven** particles after a spawn, not ten. The guard
  `mouseParticles.length > 10` runs before the push, so a pool of ten grows to
  eleven (`MouseTrail.Cap`, `MouseTrail.RunKeepsCap`,
  `MouseTrail.SpawnsFillUpToCap`).
- A mismatch always resets to index 0, even when the key could start a new
  attempt. So `ArrowUp` followed by the full code fires **no** activation. The
  third `ArrowUp` resets the index, and the remaining keys never match from 0
  (`Konami.StrayKeyBeforeCodeNeverFires`). In general the code fires exactly
  when it is typed at index 0 (`Konami.CodeFiresIffFreshStart`).

## Model

| member | source | states |
|---|---|---|
| `Konami.Step` | script.js:318-328 | After any key the index is below 10. The egg fires exactly when the index was 9 and the key is `a`, and the index is then 0. An expected key advances the index by one. Any other key, even `ArrowUp`, resets it to 0 without firing. |
| `Konami.Feed` | script.js:316-328 | Over any non-empty run of keys the final index is below 10. The final index plus ten times the number of activations never exceeds the start index plus the number of keys. |
| `Konami.IndexIsMatchedSuffix` | script.js:315-328 | From index 0, the index after any keys equals the length of a suffix of those keys that spells the start of the code. |
| `Konami.FireEndsCode` | script.js:319-324 | Soundness: the egg fires only on a key that completes the code. That key and the nine before it are exactly the Konami code. |
| `Konami.FiredRunEndsWithCode` | script.js:319-324 | A run of keys whose last key adds an activation ends with the full code. |
| `Konami.FeedCode` | script.js:315-324 | The exact ten-key code, fed from index 0, fires once and leaves the index at 0. |
| `Konami.FeedAfterCode` | script.js:319-324 | Typing the code from index 0 fires once, and the keys after it are handled as from a fresh start. |
| `Konami.FeedRepeat` | script.js:319-324 | `k` back-to-back copies of the code fire exactly `k` times and end at index 0. |
| `Konami.WindowFiresIffCode` | script.js:315-324 | Ten keys from index 0 fire at most once, and fire exactly when they are the code. |
| `Konami.CodeAfterPrefix` | script.js:318-324 | Completeness: after any keys that leave the index at 0, typing the code fires once more and ends at index 0. |
| `Konami.CodeFromNonZero` | script.js:318-327 | The code typed while the index is anywhere from 1 to 9 fires nothing and ends at index 0. |
| `Konami.CodeFiresIffFreshStart` | script.js:318-327 | After any keys, typing the code fires exactly when the index was 0, and always ends at index 0. |
| `Konami.StrayKeyBeforeCodeNeverFires` | script.js:319-327 | `ArrowUp` followed by the code fires nothing and ends at index 0: no restart credit. |
| `Konami.ThirdArrowUpResets` | script.js:319-327 | Three `ArrowUp`s from index 0 advance to 2 and then reset, so the keys after them are handled as from a fresh start. |
| `Konami.NoProgressWithoutArrowUp` | script.js:319-327 | From index 0, keys that contain no `ArrowUp` never advance the index and never fire. |
| `EasterEgg.ConfettiTimers` | script.js:332-336 | The first `n` rounds of the confetti loop register `n` confetti spawns, and round `i` registers its spawn at `i * 30` ms. |
| `EasterEgg.Activation` | script.js:330-357 | One activation registers 51 timers, in order. The `i`-th of the first 50 spawns confetti at `i * 30` ms. The last removes the message at 3000 ms. |
| `EasterEgg.ActivationConfetti` | script.js:332-357 | Exactly 50 of an activation's timers spawn confetti. The message removal does not. |
| `EasterEgg.ActivationDelaysIncrease` | script.js:332-357 | Confetti delays rise strictly from 0 to 1470 ms, and every spawn comes before the message is removed. |
| `EasterEgg.KeyDown` | script.js:318-328 | The listener's index stays below 10. It registers timers exactly when the index was 9 and the key is `a`, and those timers are one activation with the index reset to 0. A matching key advances the index. Any other key resets it and registers nothing. |
| `EasterEgg.KeyDowns` | script.js:318-328 | Over any non-empty run of keys the final index is below 10. The run registers at most 51 timers per key, counted over the whole run. |
| `EasterEgg.KeyDownsScheduleActivations` | script.js:318-336 | Over any keys, the listener's index matches the recogniser's. It registers 51 timers and 50 confetti spawns per activation. |
| `EasterEgg.RepeatedCodeConfetti` | script.js:318-336 | Typing the code `k` times in a row registers `50 * k` confetti spawns and ends at index 0. |
| `MouseTrail.Spawn` | script.js:272-292 | A pool longer than ten loses its head, and that head is reported as the evicted particle. The new particle goes at the tail and the others keep their order. A pool of at most eleven stays at most eleven. |
| `MouseTrail.Expire` | script.js:299-302 | After a particle's timer, that particle is no longer in the pool, and the pool never grows. |
| `MouseTrail.ExpireMembers` | script.js:301 | The timer's filter keeps exactly the particles other than its own. |
| `MouseTrail.ExpireAbsent` | script.js:299-302 | The timer of a particle that was already evicted leaves the pool unchanged. |
| `MouseTrail.ExpireRemovesExactlyOne` | script.js:299-302 | In a pool without duplicates, a timer removes exactly its particle's one slot. The order of the rest is unchanged. |
| `MouseTrail.ExpireCommutes` | script.js:299-302 | Two timers give the same pool in either order. A timer that fires again changes nothing. |
| `MouseTrail.ExpireAppend` | script.js:301 | Filtering a concatenation filters each part. |
| `MouseTrail.ExpireKeepsOrder` | script.js:301 | Filtering keeps a creation-ordered pool in creation order. |
| `MouseTrail.SpawnEvictsOldest` | script.js:273-276 | In a creation-ordered pool, the evicted particle is the oldest live one. Every particle left is newer, and the pool stays in creation order. |
| `MouseTrail.SpawnKeepsOrder` | script.js:272-292 | Spawning a particle newer than all live ones keeps the pool in creation order. |
| `MouseTrail.SpawnThenExpire` | script.js:272-302 | The timer of a freshly spawned particle undoes its spawn, except for the eviction the spawn caused. |
| `MouseTrail.Run` | script.js:263-302 | The pool after any history of spawns and timer callbacks, handled in arrival order, is at most one particle longer per event than the pool it started from. |
| `MouseTrail.RunKeepsCap` | script.js:263-302 | Under any interleaving of spawns and timers, a pool that starts with at most eleven particles never holds more than eleven. |
| `MouseTrail.SpawnsFillUpToCap` | script.js:272-292 | Spawns with no timer in between evict nothing while the pool stays within eleven, so eleven spawns from an empty pool leave eleven live particles. The cap of eleven is reached. |
| `MouseTrail.IncreasingDistinct` | script.js:272-302 | A pool kept in creation order holds no particle twice. |
| `MouseTrail.RunKeepsOrder` | script.js:263-302 | Under any interleaving of fresh spawns and timers, the pool stays oldest-first, so eviction is first in, first out. It also never holds a particle twice, so a timer removes at most one slot: its particle's, if that particle is still live (`ExpireRemovesExactlyOne`, `ExpireAbsent`). |
| `MouseTrail.LiveMeansUnexpired` | script.js:272-302 | A particle live after the events was live before and its timer never fired, or it was spawned and its timer has not fired since. |
| `MouseTrail.NoLeak` | script.js:294-302 | If every particle's timer fires after its spawn, in any order, the pool ends empty. |
| `Theme.Load` | script.js:6-7 | The loaded theme is never empty. It is the stored value when that is non-empty, and `light` otherwise. |
| `Theme.Toggle` | script.js:12 | The toggle always yields `light` or `dark`. It yields `dark` exactly when the current theme is `light`. |
| `Theme.ToggleTwice` | script.js:10-15 | Two clicks restore `light` and `dark`. |
| `Theme.ToggleTwiceForgetsOther` | script.js:10-15 | Two clicks turn any other stored value into `dark`, so that value is not restored. |
| `Theme.TogglesParity` | script.js:10-15 | From `light` or `dark`, `n` clicks give back the starting theme exactly when `n` is even. |

## Left out

- DOM creation, styling and removal are not modelled. This covers the particle, confetti and message elements and `element.remove()`. A removed element is modelled only by its absence from the pool or by the evicted id `Spawn` returns.
- `localStorage` writes, `console.log`, `IntersectionObserver` reveal and lazy image loading are host-environment calls with no state to model.
- `setTimeout`, `requestAnimationFrame` and the Web Animations `onfinish` callback are not modelled as clocks. Timers are delays paired with actions, and removal timers are events in any order.
- The 10 ms fade of a trail particle (script.js:294-297) changes only style.
- The confetti's own lifecycle (`createConfetti`, script.js:360-383) is not modelled. Its random position, hue, rotation and duration have no model state, and its `onfinish` removal touches no shared state.
- `Math.random`, including the 5% spawn throttle of the `mousemove` listener (script.js:265-270), is not modelled. The events list contains only the spawns that pass the throttle.
- Floating-point code is out of scope: counter easing, parallax, scroll hue, ripple geometry and the colour generator.
- The simulated form submission, mobile menu, smooth scroll, explore button and navbar shadow are event-to-style mappings with no logic.
