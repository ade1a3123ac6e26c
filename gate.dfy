/**
 * The step-gate engine of the build tracker (script.js:43-100): per-step
 * artifacts, the unlock rule, the highest unlocked step, the completed count
 * and the three-way project status.
 *
 * Local storage is modelled as a map from step number to artifact: a step
 * whose key is absent (never written, unreadable or unparsable, all of which
 * `getArtifact` turns into `null`) has no artifact.
 */
module Gate {
  import opened Options
  import opened Urls

  /** The tutorial has exactly eight steps, numbered 1 to 8. */
  const NumSteps: int := 8

  predicate IsStep(n: int) {
    1 <= n <= NumSteps
  }

  /** The three statuses an artifact is recorded with. */
  datatype ArtifactStatus = Worked | Error | Uploaded

  /** `{filename, timestamp, status}`; a feedback click leaves `filename` null. */
  datatype Artifact = Artifact(filename: Option<string>, timestamp: int, status: ArtifactStatus)

  /** The three proof links of the submission page. */
  datatype ProofLinks = ProofLinks(lovable: string, github: string, deploy: string)

  /** What `getProofLinks` yields when nothing (readable) is stored. */
  const DefaultLinks: ProofLinks := ProofLinks("", "", "")

  /** The persisted artifacts: step number to artifact, absent means `null`. */
  type Store = map<int, Artifact>

  /** `isStepUnlocked`: step 1 always, any other step once its predecessor has an artifact. */
  predicate IsStepUnlocked(m: Store, n: int) {
    n == 1 || n - 1 in m
  }

  /** The unlocked step that a downward scan from `i` meets first (1 if none). */
  function HighestUnlockedAtMost(m: Store, i: int): (h: int)
    requires IsStep(i)
    ensures 1 <= h <= i && IsStepUnlocked(m, h)
    ensures forall j :: h < j <= i ==> !IsStepUnlocked(m, j)
    decreases i
  {
    if IsStepUnlocked(m, i) then i else HighestUnlockedAtMost(m, i - 1)
  }

  /** `getHighestUnlockedStep`: the largest unlocked step number. */
  function HighestUnlocked(m: Store): (h: int)
    ensures IsStep(h) && IsStepUnlocked(m, h)
    ensures forall j :: h < j <= NumSteps ==> !IsStepUnlocked(m, j)
  {
    HighestUnlockedAtMost(m, NumSteps)
  }

  /** How many of steps 1..n have an artifact. */
  function CountUpTo(m: Store, n: nat): (c: nat)
    ensures c <= n
  {
    if n == 0 then 0 else CountUpTo(m, n - 1) + (if n in m then 1 else 0)
  }

  /** `getCompletedCount`: how many of the eight steps have an artifact. */
  function CompletedCount(m: Store): (c: nat)
    ensures c <= NumSteps
  {
    CountUpTo(m, NumSteps)
  }

  /** The steps that have an artifact, as a set. */
  function CompletedSteps(m: Store): set<int> {
    set n | 1 <= n <= NumSteps && n in m
  }

  /** The count is the size of the set of steps 1..n that carry an artifact. */
  lemma {:induction false} CountUpToIsCardinality(m: Store, n: nat)
    ensures CountUpTo(m, n) == |set j | 1 <= j <= n && j in m|
  {
    if n > 0 {
      CountUpToIsCardinality(m, n - 1);
      var below := set j | 1 <= j <= n - 1 && j in m;
      var upto := set j | 1 <= j <= n && j in m;
      if n in m {
        assert upto == below + {n};
      } else {
        assert upto == below;
      }
    }
  }

  /** `getCompletedCount` counts exactly the steps that have an artifact. */
  lemma CompletedCountIsCardinality(m: Store)
    ensures CompletedCount(m) == |CompletedSteps(m)|
  {
    CountUpToIsCardinality(m, NumSteps);
  }

  /** No step in 1..n has an artifact exactly when the count is 0. */
  lemma {:induction false} CountUpToZero(m: Store, n: nat)
    ensures CountUpTo(m, n) == 0 <==> forall j :: 1 <= j <= n ==> j !in m
  {
    if n > 0 {
      CountUpToZero(m, n - 1);
    }
  }

  /** Every step in 1..n has an artifact exactly when the count is n. */
  lemma {:induction false} CountUpToFull(m: Store, n: nat)
    ensures CountUpTo(m, n) == n <==> forall j :: 1 <= j <= n ==> j in m
  {
    if n > 0 {
      CountUpToFull(m, n - 1);
    }
  }

  /** Writing step k's slot adds one to the count up to n when k is a new step in range, else nothing. */
  lemma {:induction false} CountUpToAfterSave(m: Store, k: int, a: Artifact, n: nat)
    ensures CountUpTo(m[k := a], n) == CountUpTo(m, n) + (if 1 <= k <= n && k !in m then 1 else 0)
  {
    if n > 0 {
      CountUpToAfterSave(m, k, a, n - 1);
    }
  }

  /** The three-way status shown on the badge. */
  datatype Status = NotStarted | InProgress | Shipped

  /** The badge text for each status. */
  function StatusLabel(s: Status): string {
    match s
    case NotStarted => "Not Started"
    case InProgress => "In Progress"
    case Shipped => "Shipped"
  }

  /** All three proof links pass `isValidUrl`. */
  predicate LinksValid(links: ProofLinks, parse: UrlParser) {
    IsValidUrl(Some(links.lovable), parse)
    && IsValidUrl(Some(links.github), parse)
    && IsValidUrl(Some(links.deploy), parse)
  }

  /**
   * `getProjectStatus`: the zero-count test comes first, then "all eight steps
   * and three valid links", and everything else is in progress.
   */
  function ProjectStatus(m: Store, links: ProofLinks, parse: UrlParser): (s: Status)
    ensures s == NotStarted <==> CompletedCount(m) == 0
    ensures s == Shipped <==> CompletedCount(m) == NumSteps && LinksValid(links, parse)
  {
    var completed := CompletedCount(m);
    if completed == 0 then NotStarted
    else if completed == NumSteps && LinksValid(links, parse) then Shipped
    else InProgress
  }

  /** The status in terms of the steps themselves: each of the three cases is an if-and-only-if. */
  lemma StatusClassification(m: Store, links: ProofLinks, parse: UrlParser)
    ensures ProjectStatus(m, links, parse) == NotStarted
        <==> forall n :: IsStep(n) ==> n !in m
    ensures ProjectStatus(m, links, parse) == Shipped
        <==> (forall n :: IsStep(n) ==> n in m) && LinksValid(links, parse)
    ensures ProjectStatus(m, links, parse) == InProgress
        <==> (exists n :: IsStep(n) && n in m)
             && !((forall n :: IsStep(n) ==> n in m) && LinksValid(links, parse))
  {
    CountUpToZero(m, NumSteps);
    CountUpToFull(m, NumSteps);
  }

  /** Seven steps recorded and valid links are still only "In Progress". */
  lemma SevenStepsAreNotShipped(m: Store, links: ProofLinks, parse: UrlParser)
    requires forall n :: 1 <= n <= 7 ==> n in m
    requires 8 !in m
    ensures ProjectStatus(m, links, parse) == InProgress
  {
    StatusClassification(m, links, parse);
    assert 1 in m;
  }

  /**
   * Saving an artifact for step k: no step that was unlocked becomes locked,
   * step k + 1 becomes unlocked, and the count grows by one exactly when step
   * k had no artifact.
   */
  lemma SaveIsMonotone(m: Store, k: int, a: Artifact)
    requires IsStep(k)
    ensures forall n :: IsStepUnlocked(m, n) ==> IsStepUnlocked(m[k := a], n)
    ensures IsStepUnlocked(m[k := a], k + 1)
    ensures CompletedCount(m[k := a]) == CompletedCount(m) + (if k in m then 0 else 1)
    ensures HighestUnlocked(m) <= HighestUnlocked(m[k := a])
  {
    CountUpToAfterSave(m, k, a, NumSteps);
  }

  /**
   * The stores the gate lets a user reach: artifacts only for steps 1..8, and
   * each recorded step's predecessor recorded too, so the recorded steps are
   * 1..c for some c.
   */
  predicate IsPrefix(m: Store) {
    forall n :: n in m ==> IsStep(n) && IsStepUnlocked(m, n)
  }

  /** A fresh store is a prefix, and saving at an unlocked step keeps it one. */
  lemma GatedSaveKeepsPrefix(m: Store, k: int, a: Artifact)
    requires IsPrefix(m) && IsStep(k) && IsStepUnlocked(m, k)
    ensures IsPrefix(map[])
    ensures IsPrefix(m[k := a])
  {
  }

  /** In a prefix store, step n is recorded exactly when n is at most the count. */
  lemma {:induction false} PrefixIsCount(m: Store, n: int)
    requires IsPrefix(m) && IsStep(n)
    ensures n in m <==> n <= CompletedCount(m)
  {
    PrefixCountUpTo(m, NumSteps);
  }

  /** Helper for PrefixIsCount: the recorded steps below n + 1 are 1..CountUpTo(m, n). */
  lemma {:induction false} PrefixCountUpTo(m: Store, n: nat)
    requires IsPrefix(m) && n <= NumSteps
    ensures forall j :: 1 <= j <= n ==> (j in m <==> j <= CountUpTo(m, n))
  {
    if n > 0 {
      PrefixCountUpTo(m, n - 1);
    }
  }

  /**
   * In a prefix store the highest unlocked step is the one after the last
   * recorded step (step 8 once all are recorded), and every step up to it is
   * unlocked.
   */
  lemma PrefixHighestUnlocked(m: Store)
    requires IsPrefix(m)
    ensures HighestUnlocked(m) == if CompletedCount(m) < NumSteps then CompletedCount(m) + 1 else NumSteps
    ensures forall n :: 1 <= n <= HighestUnlocked(m) ==> IsStepUnlocked(m, n)
  {
    var c := CompletedCount(m);
    PrefixCountUpTo(m, NumSteps);
    var h := HighestUnlocked(m);
    if c < NumSteps {
      assert IsStepUnlocked(m, c + 1);
    }
  }
}
