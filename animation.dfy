/**
 * The page's single dynamic animation slot: `createDynamicAnimation`
 * removes the style tag it installed last before installing a new one, so
 * at most one `dynamic-scroll` keyframe rule is attached at any time.
 */
module Animation {
  import opened Options
  import Planner

  /**
   * The `dynamic-scroll` keyframes: translateY(100vh) at 0%, target (px) at
   * stopPercent and again at 100%.
   */
  datatype Keyframes = Keyframes(stopPercent: real, target: real)

  /** The keyframes a plan installs. */
  function KeyframesOf(p: Planner.Plan): Keyframes
  {
    Keyframes(p.easePoint, p.endOffset)
  }

  /** The sequence with the first occurrence of k removed. */
  function Without(s: seq<Keyframes>, k: Keyframes): (r: seq<Keyframes>)
    ensures k in s ==> |r| == |s| - 1
    ensures k !in s ==> r == s
  {
    if s == [] then []
    else
      assert s == [s[0]] + s[1..];
      if s[0] == k then s[1..] else [s[0]] + Without(s[1..], k)
  }

  /** The position of the first occurrence of k. */
  function FirstIndex(s: seq<Keyframes>, k: Keyframes): (i: nat)
    requires k in s
    ensures i < |s| && s[i] == k && k !in s[..i]
  {
    if s[0] == k then 0
    else
      assert s[1..][..FirstIndex(s[1..], k)] == s[1..FirstIndex(s[1..], k) + 1];
      FirstIndex(s[1..], k) + 1
  }

  /** Without takes out the first occurrence of k and keeps the order of the rest. */
  lemma {:induction false} WithoutRemovesFirst(s: seq<Keyframes>, k: Keyframes)
    requires k in s
    ensures Without(s, k) == s[..FirstIndex(s, k)] + s[FirstIndex(s, k) + 1..]
  {
    if s[0] != k {
      WithoutRemovesFirst(s[1..], k);
      var t := s[1..];
      var j := FirstIndex(t, k);
      assert FirstIndex(s, k) == j + 1;
      assert Without(s, k) == [s[0]] + Without(t, k);
      assert Without(t, k) == t[..j] + t[j + 1..];
      assert s[..j + 1] == [s[0]] + t[..j];
      assert s[j + 2..] == t[j + 1..];
      assert [s[0]] + (t[..j] + t[j + 1..]) == ([s[0]] + t[..j]) + t[j + 1..];
    }
  }

  class StyleSlot {
    /** The style tag this page installed last (`dynamicStyleTag`), if any. */
    var tag: Option<Keyframes>
    /** The dynamic keyframe rules attached to the document head. */
    var attached: seq<Keyframes>

    /** Exactly the slot's tag is attached, so at most one rule is active. */
    ghost predicate Valid()
      reads this
    {
      attached == if tag.Some? then [tag.value] else []
    }

    constructor ()
      ensures Valid() && tag == None && attached == []
    {
      tag := None;
      attached := [];
    }

    /** `createDynamicAnimation(target, stopPercent)`. */
    method Install(target: real, stopPercent: real)
      requires Valid()
      modifies this
      ensures Valid()
      ensures tag == Some(Keyframes(stopPercent, target))
      ensures attached == [Keyframes(stopPercent, target)]
    {
      if tag.Some? {
        attached := Without(attached, tag.value);
      }
      var k := Keyframes(stopPercent, target);
      tag := Some(k);
      attached := attached + [k];
    }

    /**
     * The planning step of the start-click handler: plan from the measured
     * geometry, then install that plan's keyframes in place of any earlier ones.
     */
    method Animate(g: Planner.Geometry, scrollDuration: real) returns (p: Planner.Plan)
      requires Valid() && Planner.ValidGeometry(g)
      modifies this
      ensures Valid()
      ensures p == Planner.ScrollPlan(g, scrollDuration)
      ensures attached == [KeyframesOf(p)]
    {
      p := Planner.ScrollPlan(g, scrollDuration);
      Install(p.endOffset, p.easePoint);
    }
  }

  /** One press of the start button: the measured geometry and the speed setting. */
  datatype Run = Run(geometry: Planner.Geometry, scrollDuration: real)

  /**
   * A page that is started once per run, in order: after every run exactly
   * that run's keyframes are attached, so after all of them only the last
   * run's remain.
   */
  method Replay(runs: seq<Run>) returns (attached: seq<Keyframes>)
    requires forall i :: 0 <= i < |runs| ==> Planner.ValidGeometry(runs[i].geometry)
    ensures attached == if runs == [] then []
                        else [KeyframesOf(Planner.ScrollPlan(runs[|runs| - 1].geometry, runs[|runs| - 1].scrollDuration))]
  {
    var slot := new StyleSlot();
    for i := 0 to |runs|
      invariant slot.Valid()
      invariant slot.attached == if i == 0 then []
                                 else [KeyframesOf(Planner.ScrollPlan(runs[i - 1].geometry, runs[i - 1].scrollDuration))]
    {
      var _ := slot.Animate(runs[i].geometry, runs[i].scrollDuration);
    }
    attached := slot.attached;
  }
}
