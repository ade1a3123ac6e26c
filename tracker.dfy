/**
 * The tracker's persisted state and the handlers that change it
 * (script.js:43-65, 79-100, 343-382 and 385-497): a class whose two fields
 * stand for the artifact entries and the proof-links entry of local storage.
 */
module Tracker {
  import opened Options
  import opened Urls
  import opened Gate
  import opened Routes

  /** The two feedback buttons of the build panel. */
  datatype Feedback = ItWorked | Failed

  /** The artifact status each feedback button records. */
  function FeedbackStatus(f: Feedback): ArtifactStatus {
    match f
    case ItWorked => Worked
    case Failed => Error
  }

  class BuildTracker {
    /** The `rb_step_<n>_artifact` entries. */
    var artifacts: Store
    /** The `rb_proof_links` entry. */
    var links: ProofLinks

    /**
     * The state the page finds at load: whatever artifacts are stored, and the
     * stored proof links or, when there are none, three empty strings.
     */
    constructor (stored: Store, storedLinks: Option<ProofLinks>)
      ensures artifacts == stored
      ensures links == if storedLinks.Some? then storedLinks.value else DefaultLinks
    {
      artifacts := stored;
      links := if storedLinks.Some? then storedLinks.value else DefaultLinks;
    }

    /** `getCompletedCount`: counts steps 1..8 that have an artifact. */
    method GetCompletedCount() returns (count: nat)
      ensures count == CompletedCount(artifacts)
    {
      count := 0;
      var i := 1;
      while i <= NumSteps
        invariant 1 <= i <= NumSteps + 1
        invariant count == CountUpTo(artifacts, i - 1)
      {
        if i in artifacts {
          count := count + 1;
        }
        i := i + 1;
      }
    }

    /**
     * `getHighestUnlockedStep`: scans from step 8 down and returns the first
     * unlocked step. Its final `return 1` is never reached, as step 1 is
     * always unlocked.
     */
    method GetHighestUnlockedStep() returns (h: int)
      ensures IsStep(h) && IsStepUnlocked(artifacts, h)
      ensures forall j :: h < j <= NumSteps ==> !IsStepUnlocked(artifacts, j)
      ensures h == HighestUnlocked(artifacts)
    {
      var i := NumSteps;
      while i >= 1
        invariant 0 <= i <= NumSteps
        invariant forall j :: i < j <= NumSteps ==> !IsStepUnlocked(artifacts, j)
      {
        if IsStepUnlocked(artifacts, i) {
          return i;
        }
        i := i - 1;
      }
      // the invariant now says step 1 is locked, which it never is
      assert IsStepUnlocked(artifacts, 1);
      assert false;
      h := 1;
    }

    /** `getProjectStatus`, with the browser's URL parser passed in. */
    method GetProjectStatus(parse: UrlParser) returns (s: Status)
      ensures s == ProjectStatus(artifacts, links, parse)
    {
      var completed := GetCompletedCount();
      if completed == 0 {
        return NotStarted;
      }
      if completed == NumSteps && IsValidUrl(Some(links.lovable), parse)
        && IsValidUrl(Some(links.github), parse) && IsValidUrl(Some(links.deploy), parse)
      {
        return Shipped;
      }
      return InProgress;
    }

    /** `render`, up to drawing the page: what it does for the current `location.hash`. */
    method Render(hash: string) returns (page: Page)
      ensures page == Dispatch(artifacts, CurrentRoute(hash))
    {
      StepTable();
      var route := CurrentRoute(hash);
      var step := StepFromRoute(route);
      if route == "" || route == "rb" {
        return Redirect(FirstStepRoute, None);
      }
      if step.Some? && !IsStepUnlocked(artifacts, step.value.num) {
        var highest := GetHighestUnlockedStep();
        return Redirect(StepRoute(Steps[highest - 1]), Some(LockedNotice(step.value.num)));
      }
      if route == ProofRoute {
        page := ProofPage;
      } else if step.Some? {
        page := StepPage(step.value);
      } else {
        page := Redirect(FirstStepRoute, None);
      }
    }

    /**
     * `saveArtifact`: overwrites step k's slot and nothing else. No unlocked
     * step becomes locked, step k + 1 unlocks, the count never decreases, and
     * a save at an unlocked step keeps a gated store gated.
     */
    method SaveArtifact(k: int, a: Artifact)
      requires IsStep(k)
      modifies this`artifacts
      ensures artifacts == old(artifacts)[k := a] && links == old(links)
      ensures forall n :: IsStepUnlocked(old(artifacts), n) ==> IsStepUnlocked(artifacts, n)
      ensures IsStepUnlocked(artifacts, k + 1)
      ensures CompletedCount(artifacts) == old(CompletedCount(artifacts)) + (if k in old(artifacts) then 0 else 1)
      ensures old(IsPrefix(artifacts) && IsStepUnlocked(artifacts, k)) ==> IsPrefix(artifacts)
    {
      SaveIsMonotone(artifacts, k, a);
      if IsPrefix(artifacts) && IsStepUnlocked(artifacts, k) {
        GatedSaveKeepsPrefix(artifacts, k, a);
      }
      artifacts := artifacts[k := a];
    }

    /**
     * The "It Worked" and "Error" handlers of step k: the status and the
     * timestamp are set, an existing filename is kept (null for a new artifact).
     */
    method GiveFeedback(k: int, f: Feedback, now: int)
      requires IsStep(k)
      modifies this`artifacts
      ensures artifacts == old(artifacts)[k := Artifact(
                if k in old(artifacts) then old(artifacts)[k].filename else None, now, FeedbackStatus(f))]
      ensures links == old(links)
      ensures CompletedCount(artifacts) >= old(CompletedCount(artifacts))
    {
      var artifact := if k in artifacts then artifacts[k] else Artifact(None, now, Worked);
      artifact := artifact.(status := FeedbackStatus(f), timestamp := now);
      SaveArtifact(k, artifact);
    }

    /**
     * The two file-input handlers of step k: a chosen file replaces the
     * artifact with an `uploaded` one; an empty selection changes nothing.
     */
    method Upload(k: int, file: Option<string>, now: int)
      requires IsStep(k)
      modifies this`artifacts
      ensures artifacts == if file.Some? then old(artifacts)[k := Artifact(file, now, Uploaded)] else old(artifacts)
      ensures links == old(links)
      ensures file.Some? ==> IsStepUnlocked(artifacts, k + 1)
    {
      if file.Some? {
        SaveArtifact(k, Artifact(file, now, Uploaded));
      }
    }

    /** The proof-page input handler: stores the three field values trimmed. */
    method EditProofLinks(lovableField: string, githubField: string, deployField: string)
      modifies this`links
      ensures links == ProofLinks(Trim(lovableField), Trim(githubField), Trim(deployField))
      ensures unchanged(this`artifacts)
    {
      links := ProofLinks(Trim(lovableField), Trim(githubField), Trim(deployField));
    }
  }
}
