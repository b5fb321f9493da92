/** `ADAChecker.runChecks` and the result shaping of `ADAChecker.checkURL`. */
module Checker {
  import opened Options
  import opened Page
  import opened Violations
  import opened Rules

  /** All four checks pushing onto one list that starts empty: images, then
      ARIA, then headings, then forms.  Each check only appends, so the list
      is the four outputs laid end to end. */
  function RunChecks(page: Snapshot): (violations: seq<Violation>)
    ensures violations == ImageViolations(page.images) + AriaViolations(page.ariaElements)
                          + HeadingViolations(page.headings) + FormViolations(page.forms)
    ensures |violations| == |ImageViolations(page.images)| + |AriaViolations(page.ariaElements)|
                            + |HeadingViolations(page.headings)| + |FormViolations(page.forms)|
  {
    var violations := [];
    var violations := CheckImages(page.images, violations);
    var violations := CheckAria(page.ariaElements, violations);
    var violations := CheckHeadings(page.headings, violations);
    CheckForms(page.forms, violations)
  }

  /** The page meets all four rules, stated on the descriptors themselves. */
  ghost predicate Compliant(page: Snapshot)
  {
    && AllImagesHaveAlt(page.images)
    && AllRolesLabelled(page.ariaElements)
    && HeadingsStepwise(page.headings)
    && AllControlsLabelled(page.forms)
  }

  /** A page yields no violation iff it meets all four rules. */
  lemma RunChecksEmptyIff(page: Snapshot)
    ensures RunChecks(page) == [] <==> Compliant(page)
  {
    ImagesPassIff(page.images);
    AriaPassIff(page.ariaElements);
    HeadingsStepwiseIff(page.headings);
    FormsPassIff(page.forms);
  }

  /** What loading a URL in the browser came to: a page to query, or the
      message of whatever was thrown while navigating or querying it. */
  datatype Navigation = Rendered(page: Snapshot) | Threw(message: string)

  /** The object returned for one URL; `violations` and `error` are present
      or absent as in the JSON the service sends. */
  datatype CheckResult = CheckResult(
    url: string,
    violations: Option<seq<Violation>>,
    error: Option<string>,
    passed: bool)

  /** Never both an error and a violations list, exactly one of the two, and
      `passed` exactly when there is no error and the list is empty. */
  predicate Consistent(r: CheckResult)
  {
    && (r.error.Some? <==> r.violations.None?)
    && (r.passed <==> r.error.None? && r.violations == Some([]))
  }

  function CheckURL(url: string, nav: Navigation): (r: CheckResult)
    ensures r.url == url
    ensures Consistent(r)
    ensures nav.Threw? ==> r.error == Some(nav.message) && !r.passed
    ensures nav.Rendered? ==> r.violations == Some(RunChecks(nav.page))
  {
    match nav
    case Rendered(page) =>
      var violations := RunChecks(page);
      CheckResult(url, Some(violations), None, |violations| == 0)
    case Threw(message) =>
      CheckResult(url, None, Some(message), false)
  }

  /** A URL passes iff its page loaded and meets all four rules. */
  lemma CheckURLPassedIff(url: string, nav: Navigation)
    ensures CheckURL(url, nav).passed <==> nav.Rendered? && Compliant(nav.page)
  {
    if nav.Rendered? {
      RunChecksEmptyIff(nav.page);
    }
  }
}
