/**
 * The scroll-animation planner of the start-click handler: from the measured
 * geometry and the requested seconds per screen height it derives where the
 * credits stop, how long the animation lasts and where the slow-down begins.
 */
module Planner {
  import opened Options

  datatype Easing = EaseOut | Linear

  /**
   * A vertical-translation animation: from startOffset to endOffset (px),
   * over duration seconds, reaching endOffset at easePoint percent of the
   * run; holdsEnd says the last frame stays once the run is over
   * (`animation-fill-mode: forwards`).
   */
  datatype Plan = Plan(startOffset: real, endOffset: real, easePoint: real,
                       duration: real, easing: Easing, holdsEnd: bool)

  /** The final message's offset from the top of the credits and its height (px). */
  datatype MessageBox = MessageBox(top: real, height: real)

  /** What the page measures once the credits are laid out. */
  datatype Geometry = Geometry(screenHeight: real, contentHeight: real,
                               finalMessage: Option<MessageBox>)

  /** The ease point is never placed before this percentage. */
  const EASE_FLOOR: real := 90.0

  /** The ease point used when nothing stops the scroll. */
  const CONTINUOUS_EASE_POINT: real := 99.9

  function Max(a: real, b: real): (r: real)
    ensures r >= a && r >= b && (r == a || r == b)
  {
    if a >= b then a else b
  }

  /** A screen-sized viewport and, when present, a message box of non-negative extent. */
  predicate ValidGeometry(g: Geometry)
  {
    && g.screenHeight > 0.0
    && (g.finalMessage.Some? ==> g.finalMessage.value.top >= 0.0 && g.finalMessage.value.height >= 0.0)
  }

  /** The translation that puts the message's centre at the screen's centre. */
  function StopTarget(screenHeight: real, m: MessageBox): (y: real)
    ensures m.top + y + m.height / 2.0 == screenHeight / 2.0
  {
    screenHeight / 2.0 - (m.top + m.height / 2.0)
  }

  /**
   * Stop-at-message mode: scroll at one screen height per scrollDuration
   * seconds, slowing down into the position where the message is centred.
   */
  function StopPlan(screenHeight: real, m: MessageBox, scrollDuration: real): (p: Plan)
    requires screenHeight > 0.0 && m.top >= 0.0 && m.height >= 0.0
    ensures p.startOffset == screenHeight
    ensures m.top + p.endOffset + m.height / 2.0 == screenHeight / 2.0
    ensures p.startOffset - p.endOffset > 0.0
    ensures p.duration * screenHeight == (p.startOffset - p.endOffset) * scrollDuration
    ensures var entry := (m.top - screenHeight) / (p.startOffset - p.endOffset) * 100.0;
            p.easePoint >= EASE_FLOOR && p.easePoint >= entry && (p.easePoint == EASE_FLOOR || p.easePoint == entry)
    ensures EASE_FLOOR <= p.easePoint < 100.0
    ensures p.easing == EaseOut && p.holdsEnd
  {
    var finalTargetY := StopTarget(screenHeight, m);
    var totalScrollDistance := screenHeight - finalTargetY;
    var speedPerPx := scrollDuration / screenHeight;
    var finalAnimationTime := totalScrollDistance * speedPerPx;
    var easeOutPoint := ((m.top - screenHeight) / totalScrollDistance) * 100.0;
    Plan(screenHeight, finalTargetY, Max(EASE_FLOOR, easeOutPoint),
         finalAnimationTime, EaseOut, true)
  }

  /**
   * Continuous mode: the credits scroll linearly until the content's bottom
   * edge is one screen height above the top of the screen.
   */
  function ContinuousPlan(screenHeight: real, contentHeight: real, scrollDuration: real): (p: Plan)
    requires screenHeight > 0.0
    ensures p.startOffset == screenHeight
    ensures p.endOffset + contentHeight == -screenHeight
    ensures p.duration * screenHeight == (contentHeight + screenHeight) * scrollDuration
    ensures p.easePoint == CONTINUOUS_EASE_POINT && p.easing == Linear && !p.holdsEnd
  {
    var totalScrollDistance := contentHeight + screenHeight;
    var finalAnimationTime := (totalScrollDistance / screenHeight) * scrollDuration;
    Plan(screenHeight, -(contentHeight + screenHeight), CONTINUOUS_EASE_POINT,
         finalAnimationTime, Linear, false)
  }

  /** The mode is chosen by whether a final message was rendered. */
  function ScrollPlan(g: Geometry, scrollDuration: real): (p: Plan)
    requires ValidGeometry(g)
    ensures p.startOffset == g.screenHeight
    ensures EASE_FLOOR <= p.easePoint < 100.0
    ensures p.easing == EaseOut <==> g.finalMessage.Some?
    ensures p.holdsEnd <==> g.finalMessage.Some?
    ensures g.finalMessage.Some? ==>
              g.finalMessage.value.top + p.endOffset + g.finalMessage.value.height / 2.0 == g.screenHeight / 2.0
    ensures g.finalMessage.None? ==> p.endOffset == -(g.contentHeight + g.screenHeight)
  {
    match g.finalMessage
    case Some(m) => StopPlan(g.screenHeight, m, scrollDuration)
    case None => ContinuousPlan(g.screenHeight, g.contentHeight, scrollDuration)
  }

  /**
   * For fixed geometry the duration is proportional to the requested
   * seconds per screen height, and nothing else in the plan depends on it.
   */
  lemma DurationScales(g: Geometry, scrollDuration: real, k: real)
    requires ValidGeometry(g)
    ensures ScrollPlan(g, k * scrollDuration)
            == ScrollPlan(g, scrollDuration).(duration := k * ScrollPlan(g, scrollDuration).duration)
  {
  }

  /** Doubling the requested speed setting doubles the duration. */
  lemma DoublingDoublesDuration(g: Geometry, scrollDuration: real)
    requires ValidGeometry(g)
    ensures ScrollPlan(g, 2.0 * scrollDuration).duration == 2.0 * ScrollPlan(g, scrollDuration).duration
  {
    DurationScales(g, scrollDuration, 2.0);
  }

  /** A positive speed setting and a non-negative content height give a positive duration. */
  lemma DurationPositive(g: Geometry, scrollDuration: real)
    requires ValidGeometry(g) && g.contentHeight >= 0.0 && scrollDuration > 0.0
    ensures ScrollPlan(g, scrollDuration).duration > 0.0
  {
  }

  /**
   * In continuous mode the keyframes travel one screen height further than
   * the distance the duration is computed for.
   */
  lemma ContinuousTravelsExtraScreen(g: Geometry, scrollDuration: real)
    requires ValidGeometry(g) && g.finalMessage.None?
    ensures var p := ScrollPlan(g, scrollDuration);
            && p.startOffset - p.endOffset == g.contentHeight + 2.0 * g.screenHeight
            && p.duration * g.screenHeight == (p.startOffset - p.endOffset - g.screenHeight) * scrollDuration
  {
  }

  /** A 1000 px screen, 4000 px of credits, 2 s per screen, no final message. */
  lemma ContinuousExample()
    ensures ScrollPlan(Geometry(1000.0, 4000.0, None), 2.0)
            == Plan(1000.0, -5000.0, 99.9, 10.0, Linear, false)
  {
  }

  /** A 1000 px screen, a 100 px message 3000 px down, 2 s per screen. */
  lemma StopExample()
    ensures ScrollPlan(Geometry(1000.0, 3200.0, Some(MessageBox(3000.0, 100.0))), 2.0)
            == Plan(1000.0, -2550.0, 90.0, 7.1, EaseOut, true)
  {
  }
}
