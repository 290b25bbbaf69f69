/** The two toggled preferences: the colour theme and the sort direction. */
module Preferences {
  import opened Wrappers

  const Light: string := "light"
  const Dark: string := "dark"
  const Ascending: string := "asc"
  const Descending: string := "desc"

  predicate IsTheme(t: string) {
    t == Light || t == Dark
  }

  predicate IsDirection(d: string) {
    d == Ascending || d == Descending
  }

  /** The theme at start-up, from the stored preference (`None` when nothing
      was stored): `saved || 'light'`, so an empty stored string also falls
      back to light. A stored value that is neither theme is kept. */
  function InitialTheme(saved: Option<string>): (t: string)
    ensures t != ""
    ensures t == Light || saved == Some(t)
    ensures saved.Some? && saved.value != "" ==> t == saved.value
  {
    match saved
    case Some(s) => if s != "" then s else Light
    case None => Light
  }

  /** `prev === 'light' ? 'dark' : 'light'`. */
  function ToggleTheme(t: string): (r: string)
    ensures IsTheme(r)
    ensures r == Dark <==> t == Light
  {
    if t == Light then Dark else Light
  }

  /** `prev === 'asc' ? 'desc' : 'asc'`. */
  function ToggleDirection(d: string): (r: string)
    ensures IsDirection(r)
    ensures r == Descending <==> d == Ascending
  {
    if d == Ascending then Descending else Ascending
  }

  /** Flipping the theme twice restores it exactly when it was one of the two
      themes; any other value is replaced by a theme on the first flip. */
  lemma ThemeToggleInvolution(t: string)
    ensures ToggleTheme(ToggleTheme(t)) == t <==> IsTheme(t)
  {
  }

  /** The same for the sort direction. */
  lemma DirectionToggleInvolution(d: string)
    ensures ToggleDirection(ToggleDirection(d)) == d <==> IsDirection(d)
  {
  }
}
