/**
 * Routing and gate enforcement of the build tracker (script.js:102-115,
 * 343-382, 155-166 and 499-528): the step table, the hash router, the gate
 * branch of `render`, the gate on navigation-bar clicks and the
 * Previous / Next / Go to Proof buttons.
 */
module Routes {
  import opened Options
  import opened Gate

  /** A step of the tutorial: its number, route key and title. */
  datatype Step = Step(num: int, key: string, title: string)

  /** `STEPS`: the eight steps in order (their subtitles and prompts are display text). */
  const Steps: seq<Step> := [
    Step(1, "01-problem", "Problem Statement"),
    Step(2, "02-market", "Market Research"),
    Step(3, "03-architecture", "Architecture"),
    Step(4, "04-hld", "High-Level Design"),
    Step(5, "05-lld", "Low-Level Design"),
    Step(6, "06-build", "Build"),
    Step(7, "07-test", "Test"),
    Step(8, "08-ship", "Ship")
  ]

  /** The route of the proof page, `'rb/' + PROOF_ROUTE`. */
  const ProofRoute: string := "rb/proof"

  /** The route of step 1, where default and unknown routes are sent. */
  const FirstStepRoute: string := "rb/01-problem"

  /** The route of a step page. */
  function StepRoute(s: Step): string {
    "rb/" + s.key
  }

  /** The step table lists steps 1..8 in order, under distinct keys and titles. */
  lemma StepTable()
    ensures |Steps| == NumSteps
    ensures forall i :: 0 <= i < |Steps| ==> Steps[i].num == i + 1
    ensures forall i, j :: 0 <= i < j < |Steps| ==> Steps[i].key != Steps[j].key
    ensures forall i, j :: 0 <= i < j < |Steps| ==> Steps[i].title != Steps[j].title
  {
  }

  /** `Array.prototype.find` over the steps: the first whose route is `route`. */
  function FindStep(steps: seq<Step>, route: string): (r: Option<Step>)
    ensures r.Some? ==> r.value in steps && StepRoute(r.value) == route
    ensures r.None? ==> forall s :: s in steps ==> StepRoute(s) != route
    ensures r.Some? ==> exists i :: 0 <= i < |steps| && steps[i] == r.value
                                    && forall j :: 0 <= j < i ==> StepRoute(steps[j]) != route
  {
    if steps == [] then None
    else if StepRoute(steps[0]) == route then Some(steps[0])
    else FindStep(steps[1..], route)
  }

  /** `getStepFromRoute`. */
  function StepFromRoute(route: string): (r: Option<Step>)
    ensures r.Some? ==> r.value in Steps && StepRoute(r.value) == route
    ensures r.None? ==> forall i :: 0 <= i < |Steps| ==> StepRoute(Steps[i]) != route
  {
    FindStep(Steps, route)
  }

  /** Every step's own route leads back to that step. */
  lemma {:induction false} StepRouteRoundTrip(i: int)
    requires 0 <= i < |Steps|
    ensures StepFromRoute(StepRoute(Steps[i])) == Some(Steps[i])
  {
    StepTable();
    var r := StepFromRoute(StepRoute(Steps[i]));
    var s := r.value;
    assert s.key == StepRoute(s)[3..] == StepRoute(Steps[i])[3..] == Steps[i].key;
  }

  /**
   * `getCurrentRoute`: `location.hash` without its first character, then
   * without one leading slash.
   */
  function CurrentRoute(hash: string): (route: string)
    ensures |route| <= |hash| && route == hash[|hash| - |route|..]
    ensures |hash| > 0 ==> |hash| - 2 <= |route| < |hash|
    ensures |route| == |hash| - 2 ==> hash[1] == '/'
    ensures |hash| >= 2 && hash[1] == '/' ==> route == hash[2..]
  {
    var h := if |hash| >= 1 then hash[1..] else "";
    if |h| > 0 && h[0] == '/' then h[1..] else h
  }

  /**
   * `navigateTo(route)` sets the fragment to `'/' + route`, which the browser
   * reports back as `#/` + route; the router reads back the same route.
   */
  function NavigationHash(route: string): (hash: string)
    ensures CurrentRoute(hash) == route
  {
    "#/" + route
  }

  /** What `render` does with a route. */
  datatype Page =
    | Redirect(target: string, notice: Option<string>)  // navigateTo, with an optional toast
    | StepPage(step: Step)
    | ProofPage

  /** A single decimal digit. */
  function Digit(d: int): char
    requires 0 <= d <= 9
  {
    ('0' as int + d) as char
  }

  /** "Complete Step n-1 first", the toast for a locked step n. */
  function LockedNotice(n: int): string
    requires IsStep(n)
  {
    "Complete Step " + [Digit(n - 1)] + " first"
  }

  /**
   * The decisions of `render`, in their order: an empty route or "rb" goes to
   * step 1; a locked step redirects to the highest unlocked step with a notice;
   * then the proof page, a step page, and finally step 1 for unknown routes.
   */
  function Dispatch(m: Store, route: string): (p: Page)
    ensures p.StepPage? ==> p.step in Steps && StepRoute(p.step) == route && IsStepUnlocked(m, p.step.num)
    ensures p.ProofPage? ==> route == ProofRoute
    ensures p.Redirect? && p.notice.None? ==> p.target == FirstStepRoute
    ensures p.Redirect? && p.notice.Some? ==> p.target == StepRoute(Steps[HighestUnlocked(m) - 1])
    ensures route == "" || route == "rb" || (StepFromRoute(route).None? && route != ProofRoute)
         ==> p == Redirect(FirstStepRoute, None)
  {
    StepTable();
    var step := StepFromRoute(route);
    if route == "" || route == "rb" then
      Redirect(FirstStepRoute, None)
    else if step.Some? && !IsStepUnlocked(m, step.value.num) then
      var highest := HighestUnlocked(m);
      Redirect(StepRoute(Steps[highest - 1]), Some(LockedNotice(step.value.num)))
    else if route == ProofRoute then
      ProofPage
    else if step.Some? then
      StepPage(step.value)
    else
      Redirect(FirstStepRoute, None)
  }

  /**
   * The gate: a locked step (never step 1) is answered with a redirect to the
   * highest unlocked step and a notice that names the step before it. In a
   * store reached through the gate, that target lies below the locked step.
   */
  lemma LockedStepRedirects(m: Store, route: string, s: Step)
    requires StepFromRoute(route) == Some(s) && !IsStepUnlocked(m, s.num)
    ensures 2 <= s.num <= NumSteps
    ensures Dispatch(m, route)
         == Redirect(StepRoute(Steps[HighestUnlocked(m) - 1]), Some(LockedNotice(s.num)))
    ensures NavClick(m, route) == Notify(LockedNotice(s.num))
    ensures IsPrefix(m) ==> HighestUnlocked(m) < s.num
  {
    StepTable();
    if IsPrefix(m) {
      PrefixHighestUnlocked(m);
    }
  }

  /**
   * Following any redirect of `render` lands on a step page without a second
   * redirect: the gate target is unlocked and step 1 always is.
   */
  lemma RedirectSettles(m: Store, route: string)
    requires Dispatch(m, route).Redirect?
    ensures Dispatch(m, Dispatch(m, route).target).StepPage?
  {
    var p := Dispatch(m, route);
    var i := if p.notice.Some? then HighestUnlocked(m) - 1 else 0;
    assert |Steps| == NumSteps;
    assert p.target == StepRoute(Steps[i]);
    UnlockedStepIsShown(m, i);
  }

  /** The route of an unlocked step shows that step's page. */
  lemma UnlockedStepIsShown(m: Store, i: int)
    requires 0 <= i < |Steps| && IsStepUnlocked(m, i + 1)
    ensures Dispatch(m, StepRoute(Steps[i])) == StepPage(Steps[i])
  {
    StepTable();
    StepRouteRoundTrip(i);
    var r := StepRoute(Steps[i]);
    assert r[..3] == "rb/" && |r| > |ProofRoute|;
  }

  /** The proof page has no gate: it is shown whatever the store holds. */
  lemma ProofPageIsNeverGated(m: Store)
    ensures StepFromRoute(ProofRoute).None?
    ensures Dispatch(m, ProofRoute) == ProofPage
  {
  }

  /** What a click handler does: navigate, or show a toast and stay. */
  datatype Action = Go(target: string) | Notify(message: string)

  /**
   * The click handler of a navigation-bar link: a locked step is refused with
   * the gate's notice; every other link is followed.
   */
  function NavClick(m: Store, route: string): (a: Action)
    ensures a.Go? ==> a.target == route && (StepFromRoute(route).Some? ==> Dispatch(m, route).StepPage?)
    ensures a.Notify? ==> StepFromRoute(route).Some? && !IsStepUnlocked(m, StepFromRoute(route).value.num)
  {
    StepTable();
    var step := StepFromRoute(route);
    if step.Some? && !IsStepUnlocked(m, step.value.num) then Notify(LockedNotice(step.value.num))
    else Go(route)
  }

  /** The buttons at the foot of a step page. */
  datatype Button = Previous | Next | GoToProof

  /** Which buttons `renderStepPage` draws: Previous after step 1, Next before step 8, Go to Proof on step 8. */
  predicate HasButton(n: int, b: Button) {
    match b
    case Previous => n > 1
    case Next => n != NumSteps
    case GoToProof => n == NumSteps
  }

  /**
   * The click handlers of the step-page buttons for step n. Previous goes to
   * step n - 1; Next and Go to Proof go on only once step n has an artifact.
   */
  function Click(m: Store, n: int, b: Button): (a: Action)
    requires IsStep(n) && HasButton(n, b)
    ensures b == Previous ==> a.Go? && StepFromRoute(a.target) == Some(Steps[n - 2])
    ensures b == Next && a.Go? ==> StepFromRoute(a.target) == Some(Steps[n]) && IsStepUnlocked(m, n + 1)
    ensures b == GoToProof && a.Go? ==> a.target == ProofRoute
    ensures a.Go? <==> b == Previous || n in m
  {
    StepTable();
    match b
    case Previous =>
      StepRouteRoundTrip(n - 2);
      Go(StepRoute(Steps[n - 2]))
    case Next =>
      if n in m then
        StepRouteRoundTrip(n);
        Go(StepRoute(Steps[n]))
      else Notify("Upload an artifact first")
    case GoToProof =>
      if n in m then Go(ProofRoute) else Notify("Upload an artifact first")
  }

  /**
   * Whether `renderStepPage` draws button b of step n enabled: Next and Go to
   * Proof carry `disabled` until step n has an artifact; Previous never does.
   */
  predicate IsEnabled(m: Store, n: int, b: Button) {
    b == Previous || n in m
  }

  /**
   * A disabled button fires no click, so the toast of the Next and Go to Proof
   * handlers is exactly what a disabled button would give: every click the
   * page can deliver navigates.
   */
  lemma OnlyDisabledButtonsNotify(m: Store, n: int, b: Button)
    requires IsStep(n) && HasButton(n, b)
    ensures Click(m, n, b).Notify? <==> !IsEnabled(m, n, b)
    ensures IsEnabled(m, n, b) ==> Click(m, n, b).Go?
  {
  }

  /** Next and Previous, from a step page of a gated store, land on a step page, never on the gate. */
  lemma ButtonsStayUngated(m: Store, n: int, b: Button)
    requires IsPrefix(m) && IsStep(n) && IsStepUnlocked(m, n) && HasButton(n, b)
    requires b != GoToProof && Click(m, n, b).Go?
    ensures Dispatch(m, Click(m, n, b).target).StepPage?
  {
    StepTable();
    if b == Previous {
      assert Click(m, n, b).target == StepRoute(Steps[n - 2]);
      UnlockedStepIsShown(m, n - 2);
    } else {
      assert Click(m, n, b).target == StepRoute(Steps[n]);
      UnlockedStepIsShown(m, n);
    }
  }

  /** The titles of the steps with (done) or without an artifact. */
  function StepTitles(m: Store, steps: seq<Step>, done: bool): (titles: seq<string>)
    ensures |titles| <= |steps|
    ensures forall t :: t in titles ==> exists s :: s in steps && s.title == t && (s.num in m) == done
  {
    if steps == [] then []
    else
      var last := steps[|steps| - 1];
      StepTitles(m, steps[..|steps| - 1], done) + (if (last.num in m) == done then [last.title] else [])
  }

  /** Every step with (done) or without an artifact has its title in the list. */
  lemma {:induction false} StepTitlesComplete(m: Store, steps: seq<Step>, done: bool)
    ensures forall j :: 0 <= j < |steps| && (steps[j].num in m) == done ==> steps[j].title in StepTitles(m, steps, done)
  {
    if steps != [] {
      var init := steps[..|steps| - 1];
      StepTitlesComplete(m, init, done);
      forall j | 0 <= j < |steps| && (steps[j].num in m) == done
        ensures steps[j].title in StepTitles(m, steps, done)
      {
        if j < |steps| - 1 {
          assert steps[j] == init[j];
        }
      }
    }
  }

  /**
   * The completed and pending lists split any table numbered 1..n between
   * them: the completed list has one entry per recorded step.
   */
  lemma {:induction false} SubmissionListsSplit(m: Store, steps: seq<Step>)
    requires forall k :: 0 <= k < |steps| ==> steps[k].num == k + 1
    ensures |StepTitles(m, steps, true)| == CountUpTo(m, |steps|)
    ensures |StepTitles(m, steps, true)| + |StepTitles(m, steps, false)| == |steps|
  {
    if steps != [] {
      var n := |steps|;
      var init := steps[..n - 1];
      SubmissionListsSplit(m, init);
      assert steps[n - 1].num == n;
    }
  }

  /**
   * The final submission lists CompletedCount(m) completed steps and the rest
   * as pending, and each step's title is in exactly the list its artifact says.
   */
  lemma SubmissionCounts(m: Store)
    ensures |StepTitles(m, Steps, true)| == CompletedCount(m)
    ensures |StepTitles(m, Steps, false)| == NumSteps - CompletedCount(m)
    ensures forall i :: 0 <= i < |Steps| ==> (Steps[i].title in StepTitles(m, Steps, true) <==> i + 1 in m)
    ensures forall i :: 0 <= i < |Steps| ==> (Steps[i].title in StepTitles(m, Steps, false) <==> i + 1 !in m)
  {
    StepTable();
    SubmissionListsSplit(m, Steps);
    StepTitlesComplete(m, Steps, true);
    StepTitlesComplete(m, Steps, false);
  }
}
