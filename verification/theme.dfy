/**
  The theme switch: the `data-theme` attribute read from storage on load and
  flipped by the toggle button.
 */
module Theme {
  import opened Wrappers

  const Light: string := "light"
  const Dark: string := "dark"

  /** The theme applied on load: the stored value, or `light` when nothing is
      stored. JavaScript's `||` also replaces a stored empty string. */
  function Load(saved: Option<string>): (r: string)
    ensures r != ""
    ensures saved.Some? && saved.value != "" ==> r == saved.value
    ensures saved.None? || saved.value == "" ==> r == Light
  {
    match saved
    case Some(t) => if t != "" then t else Light
    case None => Light
  }

  /** The toggle button: `light` becomes `dark`; anything else, including an
      unrecognised stored value, becomes `light`. */
  function Toggle(current: string): (r: string)
    ensures r == Light || r == Dark
    ensures r == Dark <==> current == Light
  {
    if current == Light then Dark else Light
  }

  /** The theme after `n` clicks of the toggle button. */
  function Toggles(current: string, n: nat): string {
    if n == 0 then current else Toggle(Toggles(current, n - 1))
  }

  /** Toggling twice restores `light` and `dark`. */
  lemma ToggleTwice(t: string)
    requires t == Light || t == Dark
    ensures Toggle(Toggle(t)) == t
  {
  }

  /** Toggling twice does not restore any other value: it lands on `dark`. */
  lemma ToggleTwiceForgetsOther(t: string)
    requires t != Light && t != Dark
    ensures Toggle(Toggle(t)) == Dark
    ensures Toggle(Toggle(t)) != t
  {
  }

  /** From `light` or `dark`, the theme after `n` clicks is the starting theme
      exactly when `n` is even. */
  lemma {:induction false} TogglesParity(t: string, n: nat)
    requires t == Light || t == Dark
    ensures Toggles(t, n) == Light || Toggles(t, n) == Dark
    ensures Toggles(t, n) == t <==> n % 2 == 0
  {
    if n > 0 {
      TogglesParity(t, n - 1);
    }
  }
}
