/**
 The page's three collapsible boxes. The state is the one open box, or
 none; the application opens on the calendar.
 */
module Accordion {
  import opened Domain

  /** The boxes, numbered 1, 2 and 3 on the page. */
  datatype Section = CalendarBox | LeaderboardBox | LogbookBox

  function SectionNumber(s: Section): (n: int)
    ensures 1 <= n <= 3
  {
    match s
    case CalendarBox => 1
    case LeaderboardBox => 2
    case LogbookBox => 3
  }

  const InitialOpen: Option<Section> := Some(CalendarBox)

  /** The page opens with box 1, the calendar, open and the others closed. */
  lemma InitiallyOnlyCalendarOpen(s: Section)
    ensures IsOpen(InitialOpen, s) <==> SectionNumber(s) == 1
  {
  }

  /** A box is drawn open exactly when it is the open one. */
  predicate IsOpen(open: Option<Section>, s: Section) {
    open == Some(s)
  }

  /** Clicking a box's header: the open box closes, any other box opens
      (closing whichever was open). */
  function Toggle(open: Option<Section>, id: Section): (r: Option<Section>)
    ensures IsOpen(open, id) ==> r == None
    ensures !IsOpen(open, id) ==> IsOpen(r, id)
    ensures forall s :: s != id ==> !IsOpen(r, s)
  {
    if open == Some(id) then None else Some(id)
  }

  /** Section numbers identify sections, and at most one is ever drawn open. */
  lemma AtMostOneOpen(open: Option<Section>, a: Section, b: Section)
    ensures SectionNumber(a) == SectionNumber(b) ==> a == b
    ensures IsOpen(open, a) && IsOpen(open, b) ==> a == b
  {
  }

  /** A run of clicks, first to last. */
  function ToggleAll(open: Option<Section>, clicks: seq<Section>): Option<Section>
    decreases |clicks|
  {
    if clicks == [] then open else ToggleAll(Toggle(open, clicks[0]), clicks[1..])
  }

  /** After any clicks, either every box is closed or the last box clicked is
      the open one. */
  lemma {:induction false} OnlyLastClickedCanBeOpen(open: Option<Section>, clicks: seq<Section>)
    requires clicks != []
    ensures ToggleAll(open, clicks) == None || ToggleAll(open, clicks) == Some(clicks[|clicks| - 1])
    decreases |clicks|
  {
    if |clicks| > 1 {
      OnlyLastClickedCanBeOpen(Toggle(open, clicks[0]), clicks[1..]);
    }
  }

  /** Clicking the same box twice returns to the start exactly when that box
      was the open one or none was open. */
  lemma ToggleTwice(open: Option<Section>, id: Section)
    ensures Toggle(Toggle(open, id), id) == open <==> open == None || open == Some(id)
  {
  }
}
