/** The integer side of the swarm overlay: splitting the width into agent
    list, transcript and hub panes, cycling tabs, and moving the agent
    selection. */
module Overlay {
  import opened Bounded

  const MIN_LEFT: u16 := 16
  const MIN_RIGHT: u16 := 20
  const MIN_CENTER: u16 := 30

  /** Pane widths; a zero width means the pane is not shown. */
  datatype Layout = Layout(left: u16, center: u16, right: u16)

  /** The three-pane case: 22% and 24% of the width (by `u16`
      `saturating_mul`), at least the minimum widths, and the centre
      widened back to its minimum from the side panes if needed. */
  function ThreePanes(available: u16): Layout {
    var left0 := Max(SatMul16(available, 22) / 100, MIN_LEFT);
    var right0 := Max(SatMul16(available, 24) / 100, MIN_RIGHT);
    var right1 := if SatAdd16(left0, right0) >= available then SatSub16(available, left0) else right0;
    var center0 := SatSub16(SatSub16(available, left0), right1);
    var deficit := SatSub16(MIN_CENTER, center0);
    var takeRight := Min(deficit, SatSub16(right1, MIN_RIGHT));
    var right2 := if center0 < MIN_CENTER then SatSub16(right1, takeRight) else right1;
    var center1 := if center0 < MIN_CENTER then SatAdd16(center0, takeRight) else center0;
    var remaining := SatSub16(deficit, takeRight);
    var takeLeft := Min(remaining, SatSub16(left0, MIN_LEFT));
    var left1 := if center0 < MIN_CENTER && remaining > 0 then SatSub16(left0, takeLeft) else left0;
    var center2 := if center0 < MIN_CENTER && remaining > 0 then SatAdd16(center1, takeLeft)
                   else center1;
    var center3 := if center2 == 0 then SatSub16(SatSub16(available, left1), right2) else center2;
    Layout(left1, center3, right2)
  }

  /** `SwarmOverlay::layout_for_width`. */
  function LayoutForWidth(width: u16): (r: Layout)
    ensures Max(width, 1) < MIN_LEFT + MIN_CENTER + 1 ==> r == Layout(0, Max(width, 1), 0)
    ensures MIN_LEFT + MIN_CENTER + 1 <= width < MIN_LEFT + MIN_CENTER + MIN_RIGHT + 2 ==>
              && r.right == 0
              && r.left + r.center + 1 == width
              && r.left >= MIN_LEFT && r.center >= MIN_CENTER
    ensures width >= MIN_LEFT + MIN_CENTER + MIN_RIGHT + 2 ==>
              && r.left + r.center + r.right + 2 == width
              && r.left >= MIN_LEFT && r.right >= MIN_RIGHT && r.center >= MIN_CENTER
  {
    var w := Max(width, 1);
    if w < MIN_LEFT + MIN_CENTER + 1 then Layout(0, w, 0)
    else if w < MIN_LEFT + MIN_CENTER + MIN_RIGHT + 2 then
      var available := SatSub16(w, 1);
      var left0 := Max(SatMul16(available, 25) / 100, MIN_LEFT);
      var left := if left0 >= available then SatSub16(available, MIN_CENTER) else left0;
      Layout(left, SatSub16(available, left), 0)
    else
      var available := SatSub16(w, 2);
      ThreePanesFit(available);
      ThreePanes(available)
  }

  /** For every width the three-pane branch sees, the percentages already
      leave the centre its minimum, so the widths add up without any
      saturation. */
  lemma ThreePanesFit(available: u16)
    requires available >= MIN_LEFT + MIN_CENTER + MIN_RIGHT
    ensures var l := ThreePanes(available);
            && l.left + l.center + l.right == available
            && l.left >= MIN_LEFT && l.right >= MIN_RIGHT && l.center >= MIN_CENTER
  {
    var a := available as int;
    var left0 := Max(SatMul16(available, 22) / 100, MIN_LEFT);
    var right0 := Max(SatMul16(available, 24) / 100, MIN_RIGHT);
    assert SatMul16(available, 22) <= a * 22;
    assert SatMul16(available, 24) <= a * 24;
    assert left0 <= Max(a * 22 / 100, 16);
    assert right0 <= Max(a * 24 / 100, 20);
    assert left0 + right0 + MIN_CENTER <= a;
  }

  /** `hub_width`: the right pane when shown, else the centre. */
  function HubWidth(l: Layout): (r: u16)
    ensures l.right > 0 ==> r == l.right
    ensures l.right == 0 ==> r == l.center
  {
    if l.right > 0 then l.right else l.center
  }

  /** The hub is always given a visible width: at least the right pane's
      minimum when three panes fit, else the centre. */
  lemma HubWidthOfLayout(width: u16)
    ensures HubWidth(LayoutForWidth(width)) > 0
    ensures width >= MIN_LEFT + MIN_CENTER + MIN_RIGHT + 2 ==>
              HubWidth(LayoutForWidth(width)) == LayoutForWidth(width).right >= MIN_RIGHT
    ensures width < MIN_LEFT + MIN_CENTER + MIN_RIGHT + 2 ==>
              HubWidth(LayoutForWidth(width)) == LayoutForWidth(width).center
  {
  }

  // ---------------------------------------------------------------------
  // Tabs and selection
  // ---------------------------------------------------------------------

  datatype Tab = All | Agent | Hub

  function Next(t: Tab): (r: Tab)
    ensures r != t
  {
    match t
    case All => Agent
    case Agent => Hub
    case Hub => All
  }

  function Prev(t: Tab): (r: Tab)
    ensures r != t
  {
    match t
    case All => Hub
    case Agent => All
    case Hub => Agent
  }

  /** `next` and `prev` undo each other, and three steps in either
      direction visit every tab and come back. */
  lemma TabCycle(t: Tab)
    ensures Prev(Next(t)) == t && Next(Prev(t)) == t
    ensures Next(Next(Next(t))) == t && Prev(Prev(Prev(t))) == t
    ensures {t, Next(t), Next(Next(t))} == {All, Agent, Hub}
  {
  }

  /** The overlay state tab and selection changes touch. */
  datatype OverlayState = OverlayState(
    tab: Tab,
    agentCount: usize,
    selectedAgent: usize,
    scrollOffset: usize)

  /** `advance_tab`: switch tab and follow the end of the new transcript. */
  function AdvanceTab(s: OverlayState, forward: bool): (r: OverlayState)
    ensures r.tab == (if forward then Next(s.tab) else Prev(s.tab))
    ensures r.scrollOffset == USIZE_MAX
    ensures r.agentCount == s.agentCount && r.selectedAgent == s.selectedAgent
  {
    s.(tab := if forward then Next(s.tab) else Prev(s.tab), scrollOffset := USIZE_MAX)
  }

  /** `step_agent`: nothing happens without agents; otherwise the selection
      wraps around the list in either direction and the view follows the
      end of the transcript. */
  function StepAgent(s: OverlayState, forward: bool): (r: OverlayState)
    ensures s.agentCount == 0 ==> r == s
    ensures s.agentCount > 0 ==> r.scrollOffset == USIZE_MAX && r.tab == s.tab
    ensures s.agentCount > 0 && s.selectedAgent < s.agentCount ==>
              && r.selectedAgent < s.agentCount
              && (forward ==>
                    r.selectedAgent == (if s.selectedAgent + 1 == s.agentCount then 0
                                        else s.selectedAgent + 1))
              && (!forward ==>
                    r.selectedAgent == (if s.selectedAgent == 0 then s.agentCount - 1
                                        else s.selectedAgent - 1))
  {
    if s.agentCount == 0 then s
    else
      var next := s.selectedAgent + 1;
      WrapStep(next, s.agentCount);
      var selected :=
        if forward then next % s.agentCount
        else if s.selectedAgent == 0 then SatSubUsize(s.agentCount, 1)
        else SatSubUsize(s.selectedAgent, 1);
      s.(selectedAgent := selected, scrollOffset := USIZE_MAX)
  }

  /** The remainder of a forward step: the next index itself, or 0 at the
      end of the list. */
  lemma WrapStep(next: int, n: int)
    requires 0 < n && 0 < next
    ensures 0 <= next % n < n
    ensures next < n ==> next % n == next
    ensures next == n ==> next % n == 0
  {
  }

  /** Stepping forward then back, or back then forward, returns to the
      same agent. */
  lemma StepAgentInverse(s: OverlayState)
    requires 0 < s.agentCount && s.selectedAgent < s.agentCount
    ensures StepAgent(StepAgent(s, true), false).selectedAgent == s.selectedAgent
    ensures StepAgent(StepAgent(s, false), true).selectedAgent == s.selectedAgent
  {
  }

  /** `n` forward steps. */
  function StepForward(s: OverlayState, n: nat): (r: OverlayState)
    requires 0 < s.agentCount && s.selectedAgent < s.agentCount
    ensures r.agentCount == s.agentCount && r.selectedAgent < s.agentCount
  {
    if n == 0 then s else StepAgent(StepForward(s, n - 1), true)
  }

  /** Up to one lap, `n` forward steps move the selection `n` places,
      wrapping past the last agent to the first. */
  lemma {:induction false} StepForwardWraps(s: OverlayState, n: nat)
    requires 0 < s.agentCount && s.selectedAgent < s.agentCount && n <= s.agentCount
    ensures StepForward(s, n).selectedAgent ==
            if s.selectedAgent + n < s.agentCount then s.selectedAgent + n
            else s.selectedAgent + n - s.agentCount
  {
    if n > 0 {
      StepForwardWraps(s, n - 1);
    }
  }

  /** Going forward once per agent returns to the agent selected. */
  lemma StepAgentFullCycle(s: OverlayState)
    requires 0 < s.agentCount && s.selectedAgent < s.agentCount
    ensures StepForward(s, s.agentCount).selectedAgent == s.selectedAgent
  {
    StepForwardWraps(s, s.agentCount);
  }

  /** The selection clamp of `sync`: a selection past the end of a
      non-empty list moves to the last agent. */
  function SyncSelection(s: OverlayState, agentCount: usize): (r: OverlayState)
    ensures r.agentCount == agentCount && r.tab == s.tab && r.scrollOffset == s.scrollOffset
    ensures agentCount > 0 ==> r.selectedAgent < agentCount
    ensures s.selectedAgent < agentCount || agentCount == 0 ==> r.selectedAgent == s.selectedAgent
    ensures s.selectedAgent >= agentCount > 0 ==> r.selectedAgent == agentCount - 1
  {
    var selected := if s.selectedAgent >= agentCount && agentCount > 0
                    then SatSubUsize(agentCount, 1) else s.selectedAgent;
    s.(agentCount := agentCount, selectedAgent := selected)
  }
}
