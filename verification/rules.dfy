/** The four accessibility rules of `ADAChecker`.

    Each check walks its descriptor list front to back and pushes a violation
    onto the shared list for every element that fails the rule; `CheckImages`
    and friends are those walks, with the list so far as an accumulator.  The
    `...Violations` functions describe the same output declaratively, and the
    lemmas say what it contains. */
module Rules {
  import opened Page
  import opened Violations
  import Seqs

  // ----- images -----

  predicate AltMissing(img: Image) { img.alt == "" }

  function AltViolation(img: Image): Violation { MissingAltText(img.src) }

  function ImageViolations(images: seq<Image>): seq<Violation>
  {
    Seqs.Emit(images, AltMissing, AltViolation)
  }

  /** `forEach` over the images, pushing onto `violations`. */
  function CheckImages(images: seq<Image>, violations: seq<Violation>): (r: seq<Violation>)
    ensures r == violations + ImageViolations(images)
  {
    if |images| == 0 then violations
    else
      var img := images[0];
      var pushed := if img.alt == "" then violations + [MissingAltText(img.src)] else violations;
      Seqs.EmitCons(images, AltMissing, AltViolation);
      CheckImages(images[1..], pushed)
  }

  /** One violation per image with empty alternative text, carrying its
      source, in input order, and nothing else. */
  lemma ImageViolationsExact(images: seq<Image>)
    ensures var r, idx := ImageViolations(images), Seqs.Positions(images, AltMissing);
            && |r| == |idx|
            && (forall k :: 0 <= k < |idx| ==> r[k] == MissingAltText(images[idx[k]].src))
            && (forall i :: 0 <= i < |images| ==> (i in idx <==> images[i].alt == ""))
    ensures |ImageViolations(images)| == |set i: nat | i < |images| && images[i].alt == ""|
    ensures forall v :: v in ImageViolations(images) <==>
              exists i :: 0 <= i < |images| && images[i].alt == "" && v == MissingAltText(images[i].src)
  {
    Seqs.EmitAligned(images, AltMissing, AltViolation);
    Seqs.EmitCount(images, AltMissing, AltViolation);
    assert Seqs.KeptSet(images, AltMissing) == set i: nat | i < |images| && images[i].alt == "";
    forall v ensures v in ImageViolations(images) <==>
              exists i :: 0 <= i < |images| && images[i].alt == "" && v == MissingAltText(images[i].src)
    {
      Seqs.EmitMember(images, AltMissing, AltViolation, v);
    }
  }

  ghost predicate AllImagesHaveAlt(images: seq<Image>)
  {
    forall i :: 0 <= i < |images| ==> images[i].alt != ""
  }

  /** No image violation iff every image has non-empty alternative text. */
  lemma ImagesPassIff(images: seq<Image>)
    ensures ImageViolations(images) == [] <==> AllImagesHaveAlt(images)
  {
    Seqs.EmitEmpty(images, AltMissing, AltViolation);
  }

  // ----- ARIA -----

  predicate AriaUnlabelled(el: AriaElement) { !el.hasAriaLabel }

  function AriaViolation(el: AriaElement): Violation { MissingAriaLabel(el.role) }

  function AriaViolations(elements: seq<AriaElement>): seq<Violation>
  {
    Seqs.Emit(elements, AriaUnlabelled, AriaViolation)
  }

  /** `forEach` over the elements with a role, pushing onto `violations`. */
  function CheckAria(elements: seq<AriaElement>, violations: seq<Violation>): (r: seq<Violation>)
    ensures r == violations + AriaViolations(elements)
  {
    if |elements| == 0 then violations
    else
      var el := elements[0];
      var pushed := if !el.hasAriaLabel then violations + [MissingAriaLabel(el.role)] else violations;
      Seqs.EmitCons(elements, AriaUnlabelled, AriaViolation);
      CheckAria(elements[1..], pushed)
  }

  /** One violation per element without `aria-label`, carrying its role, in
      input order; labelled elements contribute nothing. */
  lemma AriaViolationsExact(elements: seq<AriaElement>)
    ensures var r, idx := AriaViolations(elements), Seqs.Positions(elements, AriaUnlabelled);
            && |r| == |idx|
            && (forall k :: 0 <= k < |idx| ==> r[k] == MissingAriaLabel(elements[idx[k]].role))
            && (forall i :: 0 <= i < |elements| ==> (i in idx <==> !elements[i].hasAriaLabel))
    ensures |AriaViolations(elements)| == |set i: nat | i < |elements| && !elements[i].hasAriaLabel|
  {
    Seqs.EmitAligned(elements, AriaUnlabelled, AriaViolation);
    Seqs.EmitCount(elements, AriaUnlabelled, AriaViolation);
    assert Seqs.KeptSet(elements, AriaUnlabelled)
        == set i: nat | i < |elements| && !elements[i].hasAriaLabel;
  }

  ghost predicate AllRolesLabelled(elements: seq<AriaElement>)
  {
    forall i :: 0 <= i < |elements| ==> elements[i].hasAriaLabel
  }

  /** No ARIA violation iff every element with a role has `aria-label`. */
  lemma AriaPassIff(elements: seq<AriaElement>)
    ensures AriaViolations(elements) == [] <==> AllRolesLabelled(elements)
  {
    Seqs.EmitEmpty(elements, AriaUnlabelled, AriaViolation);
  }

  // ----- headings -----

  /** A heading together with the level the walk remembered before it. */
  datatype Step = Step(from: nat, to: nat)

  /** The level the walk remembers when it reaches heading `i`: 0 before the
      first heading, the previous heading's level afterwards. */
  function PreviousLevel(headings: seq<Heading>, i: nat): nat
    requires i < |headings|
  {
    if i == 0 then 0 else headings[i - 1].level
  }

  /** The adjacent pairs of `[start] + levels`, one per heading. */
  function Steps(start: nat, headings: seq<Heading>): (s: seq<Step>)
    ensures |s| == |headings|
  {
    seq(|headings|, i requires 0 <= i < |headings| =>
      Step(if i == 0 then start else headings[i - 1].level, headings[i].level))
  }

  predicate IsJump(s: Step) { s.to - s.from > 1 }

  function JumpViolation(s: Step): Violation { HeadingJump(s.from, s.to) }

  function HeadingViolations(headings: seq<Heading>): seq<Violation>
  {
    Seqs.Emit(Steps(0, headings), IsJump, JumpViolation)
  }

  lemma StepsCons(start: nat, headings: seq<Heading>)
    requires |headings| > 0
    ensures Steps(start, headings)
         == [Step(start, headings[0].level)] + Steps(headings[0].level, headings[1..])
  {
    var lhs := Steps(start, headings);
    var rhs := [Step(start, headings[0].level)] + Steps(headings[0].level, headings[1..]);
    forall i | 0 <= i < |headings| ensures lhs[i] == rhs[i] {
      if i > 0 {
        assert rhs[i] == Steps(headings[0].level, headings[1..])[i - 1];
      }
    }
  }

  /** The `forEach` over the headings from a remembered level, pushing onto
      `violations`; the remembered level becomes every heading's own level,
      whether or not it was flagged. */
  function CheckHeadingsFrom(headings: seq<Heading>, previousLevel: nat, violations: seq<Violation>)
    : (r: seq<Violation>)
    ensures r == violations + Seqs.Emit(Steps(previousLevel, headings), IsJump, JumpViolation)
  {
    if |headings| == 0 then violations
    else
      var h := headings[0];
      var pushed :=
        if h.level - previousLevel > 1 then violations + [HeadingJump(previousLevel, h.level)]
        else violations;
      StepsCons(previousLevel, headings);
      Seqs.EmitCons(Steps(previousLevel, headings), IsJump, JumpViolation);
      CheckHeadingsFrom(headings[1..], h.level, pushed)
  }

  /** The heading walk as the service starts it, remembering level 0. */
  function CheckHeadings(headings: seq<Heading>, violations: seq<Violation>): (r: seq<Violation>)
    ensures r == violations + HeadingViolations(headings)
  {
    CheckHeadingsFrom(headings, 0, violations)
  }

  /** Heading `i` is flagged iff its level exceeds the remembered level by more
      than one, and the violation records exactly those two levels. */
  lemma HeadingViolationsExact(headings: seq<Heading>)
    ensures var r, idx := HeadingViolations(headings), Seqs.Positions(Steps(0, headings), IsJump);
            && |r| == |idx|
            && (forall k :: 0 <= k < |idx| ==>
                  r[k] == HeadingJump(PreviousLevel(headings, idx[k]), headings[idx[k]].level))
            && (forall i :: 0 <= i < |headings| ==>
                  (i in idx <==> headings[i].level > PreviousLevel(headings, i) + 1))
    ensures |HeadingViolations(headings)|
         == |set i: nat | i < |headings| && headings[i].level > PreviousLevel(headings, i) + 1|
  {
    var steps := Steps(0, headings);
    Seqs.EmitAligned(steps, IsJump, JumpViolation);
    Seqs.EmitCount(steps, IsJump, JumpViolation);
    assert Seqs.KeptSet(steps, IsJump)
        == set i: nat | i < |headings| && headings[i].level > PreviousLevel(headings, i) + 1;
  }

  /** Every heading violation is an upward jump of two or more levels: an
      equal or lower level is never flagged. */
  lemma HeadingViolationsAreJumps(headings: seq<Heading>)
    ensures forall v :: v in HeadingViolations(headings) ==> v.HeadingJump? && v.to >= v.from + 2
  {
    var steps := Steps(0, headings);
    forall v | v in HeadingViolations(headings)
      ensures v.HeadingJump? && v.to >= v.from + 2
    {
      Seqs.EmitMember(steps, IsJump, JumpViolation, v);
    }
  }

  /** Every heading is at most one level deeper than the level remembered
      before it: `[1, 2, 3]` and `[1, 2, 1, 2]` are stepwise. */
  ghost predicate HeadingsStepwise(headings: seq<Heading>)
  {
    forall i :: 0 <= i < |headings| ==> headings[i].level <= PreviousLevel(headings, i) + 1
  }

  /** No heading violation iff the headings are stepwise. */
  lemma HeadingsStepwiseIff(headings: seq<Heading>)
    ensures HeadingViolations(headings) == [] <==> HeadingsStepwise(headings)
  {
    var steps := Steps(0, headings);
    Seqs.EmitEmpty(steps, IsJump, JumpViolation);
    if i :| 0 <= i < |headings| && headings[i].level > PreviousLevel(headings, i) + 1 {
      assert IsJump(steps[i]);
    }
    if i :| 0 <= i < |steps| && IsJump(steps[i]) {
      assert headings[i].level > PreviousLevel(headings, i) + 1;
    }
  }

  /** With the remembered level starting at 0, a first heading at level 2 or
      deeper is reported as a jump from h0, ahead of everything else; a first
      heading at level 0 or 1 adds nothing.  Either way the walk goes on from
      that heading's level. */
  lemma FirstHeadingFromZero(headings: seq<Heading>)
    requires |headings| > 0
    ensures var first, rest := headings[0].level, Seqs.Emit(Steps(headings[0].level, headings[1..]), IsJump, JumpViolation);
            HeadingViolations(headings)
            == (if first >= 2 then [HeadingJump(0, first)] + rest else rest)
  {
    StepsCons(0, headings);
    Seqs.EmitCons(Steps(0, headings), IsJump, JumpViolation);
  }

  /** Headings at the given levels, with no text. */
  function AtLevels(levels: seq<nat>): (hs: seq<Heading>)
    ensures |hs| == |levels|
  {
    seq(|levels|, i requires 0 <= i < |levels| => Heading(levels[i], ""))
  }

  /** Worked cases: steps of at most +1 from h0 pass; h1 then h3 is one jump;
      a lone h3, and equally a lone h2, is a jump from h0. */
  lemma HeadingExamples()
    ensures HeadingViolations(AtLevels([1, 2, 3])) == []
    ensures HeadingViolations(AtLevels([1, 2, 1, 2])) == []
    ensures HeadingViolations(AtLevels([1, 3])) == [HeadingJump(1, 3)]
    ensures HeadingViolations(AtLevels([3])) == [HeadingJump(0, 3)]
    ensures HeadingViolations(AtLevels([2])) == [HeadingJump(0, 2)]
  {
    var a, b := AtLevels([1, 2, 3]), AtLevels([1, 2, 1, 2]);
    assert a[0].level == 1 && a[1].level == 2 && a[2].level == 3;
    assert b[0].level == 1 && b[1].level == 2 && b[2].level == 1 && b[3].level == 2;
    HeadingsStepwiseIff(a);
    HeadingsStepwiseIff(b);
  }

  // ----- forms -----

  predicate FormUnlabelled(c: FormControl) { !c.hasLabel && !c.hasAriaLabel }

  function FormViolation(c: FormControl): Violation { MissingFormLabel(c.controlType) }

  function FormViolations(controls: seq<FormControl>): seq<Violation>
  {
    Seqs.Emit(controls, FormUnlabelled, FormViolation)
  }

  /** `forEach` over the form controls, pushing onto `violations`. */
  function CheckForms(controls: seq<FormControl>, violations: seq<Violation>): (r: seq<Violation>)
    ensures r == violations + FormViolations(controls)
  {
    if |controls| == 0 then violations
    else
      var c := controls[0];
      var pushed := if !c.hasLabel && !c.hasAriaLabel then violations + [MissingFormLabel(c.controlType)] else violations;
      Seqs.EmitCons(controls, FormUnlabelled, FormViolation);
      CheckForms(controls[1..], pushed)
  }

  /** A control is flagged iff it has neither an associated label nor
      `aria-label`; each violation carries the control's type, in input order. */
  lemma FormViolationsExact(controls: seq<FormControl>)
    ensures var r, idx := FormViolations(controls), Seqs.Positions(controls, FormUnlabelled);
            && |r| == |idx|
            && (forall k :: 0 <= k < |idx| ==> r[k] == MissingFormLabel(controls[idx[k]].controlType))
            && (forall i :: 0 <= i < |controls| ==>
                  (i in idx <==> !controls[i].hasLabel && !controls[i].hasAriaLabel))
    ensures |FormViolations(controls)|
         == |set i: nat | i < |controls| && !controls[i].hasLabel && !controls[i].hasAriaLabel|
  {
    Seqs.EmitAligned(controls, FormUnlabelled, FormViolation);
    Seqs.EmitCount(controls, FormUnlabelled, FormViolation);
    assert Seqs.KeptSet(controls, FormUnlabelled)
        == set i: nat | i < |controls| && !controls[i].hasLabel && !controls[i].hasAriaLabel;
  }

  ghost predicate AllControlsLabelled(controls: seq<FormControl>)
  {
    forall i :: 0 <= i < |controls| ==> controls[i].hasLabel || controls[i].hasAriaLabel
  }

  /** No form violation iff every control has a label or `aria-label`. */
  lemma FormsPassIff(controls: seq<FormControl>)
    ensures FormViolations(controls) == [] <==> AllControlsLabelled(controls)
  {
    Seqs.EmitEmpty(controls, FormUnlabelled, FormViolation);
  }
}
