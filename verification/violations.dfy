/** Violation records and the JSON objects the service reports for them. */
module Violations {
  import opened Options
  import Decimal

  /** One detected deviation from one of the four rules. */
  datatype Violation =
    | MissingAltText(src: string)
    | MissingAriaLabel(role: string)
    | HeadingJump(from: nat, to: nat)
    | MissingFormLabel(controlType: string)

  /** The JSON object pushed for a violation: a `type` string and, depending
      on the kind, `element`, `src` and `details` string fields. */
  datatype Record = Record(
    kind: string,
    element: Option<string>,
    src: Option<string>,
    details: Option<string>)

  const AltKind := "Missing alt text"
  const AriaKind := "Missing ARIA label"
  const HeadingKind := "Incorrect heading hierarchy"
  const FormKind := "Missing form label"

  const RolePrefix := "Element with role \""
  const RoleSuffix := "\""
  const JumpPrefix := "Jump from h"
  const JumpMiddle := " to h"

  function RoleText(role: string): string
  {
    RolePrefix + role + RoleSuffix
  }

  function JumpText(from: nat, to: nat): string
  {
    JumpPrefix + Decimal.Show(from) + JumpMiddle + Decimal.Show(to)
  }

  /** The record the service writes for `v`. */
  function Render(v: Violation): Record
  {
    match v
    case MissingAltText(src) => Record(AltKind, Some("img"), Some(src), None)
    case MissingAriaLabel(role) => Record(AriaKind, Some(RoleText(role)), None, None)
    case HeadingJump(from, to) => Record(HeadingKind, None, None, Some(JumpText(from, to)))
    case MissingFormLabel(t) => Record(FormKind, Some(t), None, None)
  }

  /** The role quoted in an ARIA `element` text, if the text has that shape. */
  function ParseRole(e: string): (r: Option<string>)
    ensures r.Some? ==> RoleText(r.value) == e
  {
    var lo, hi := |RolePrefix|, |e| - |RoleSuffix|;
    if lo <= hi && e[..lo] == RolePrefix && e[hi..] == RoleSuffix then
      assert e == e[..lo] + e[lo..hi] + e[hi..];
      Some(e[lo..hi])
    else None
  }

  /** The two levels of a heading `details` text, if the text has that shape. */
  function ParseJump(d: string): Option<(nat, nat)>
  {
    if |d| < |JumpPrefix| || d[..|JumpPrefix|] != JumpPrefix then None
    else
      var rest := d[|JumpPrefix|..];
      var k := Decimal.DigitRun(rest);
      var tail := rest[k..];
      if |tail| < |JumpMiddle| || tail[..|JumpMiddle|] != JumpMiddle then None
      else
        match (Decimal.Parse(rest[..k]), Decimal.Parse(tail[|JumpMiddle|..]))
        case (Some(from), Some(to)) => Some((from, to))
        case _ => None
  }

  /** Reads a record back into the violation it reports, if it is one. */
  function Decode(rec: Record): Option<Violation>
  {
    if rec.kind == AltKind then
      if rec.element == Some("img") && rec.src.Some? && rec.details.None?
      then Some(MissingAltText(rec.src.value)) else None
    else if rec.kind == AriaKind then
      if rec.element.Some? && rec.src.None? && rec.details.None? then
        match ParseRole(rec.element.value)
        case Some(role) => Some(MissingAriaLabel(role))
        case None => None
      else None
    else if rec.kind == HeadingKind then
      if rec.element.None? && rec.src.None? && rec.details.Some? then
        match ParseJump(rec.details.value)
        case Some((from, to)) => Some(HeadingJump(from, to))
        case None => None
      else None
    else if rec.kind == FormKind then
      if rec.element.Some? && rec.src.None? && rec.details.None?
      then Some(MissingFormLabel(rec.element.value)) else None
    else None
  }

  lemma ParseRoleText(role: string)
    ensures ParseRole(RoleText(role)) == Some(role)
  {
    var e := RoleText(role);
    assert e[..|RolePrefix|] == RolePrefix;
    assert e[|e| - |RoleSuffix|..] == RoleSuffix;
    assert e[|RolePrefix|..|e| - |RoleSuffix|] == role;
  }

  lemma ParseJumpText(from: nat, to: nat)
    ensures ParseJump(JumpText(from, to)) == Some((from, to))
  {
    var f, t := Decimal.Show(from), Decimal.Show(to);
    var d := JumpText(from, to);
    assert d[..|JumpPrefix|] == JumpPrefix;
    var rest := d[|JumpPrefix|..];
    assert rest == f + (JumpMiddle + t);
    Decimal.DigitRunStops(f, JumpMiddle + t);
    assert rest[..|f|] == f;
    var tail := rest[|f|..];
    assert tail == JumpMiddle + t;
    assert tail[..|JumpMiddle|] == JumpMiddle;
    assert tail[|JumpMiddle|..] == t;
    Decimal.ParseShow(from);
    Decimal.ParseShow(to);
  }

  /** Every reported record reads back as the violation it was made from. */
  lemma DecodeRender(v: Violation)
    ensures Decode(Render(v)) == Some(v)
  {
    match v
    case MissingAltText(_) =>
    case MissingAriaLabel(role) => ParseRoleText(role);
    case HeadingJump(from, to) => ParseJumpText(from, to);
    case MissingFormLabel(_) =>
  }

  /** Distinct violations are reported as distinct records. */
  lemma RenderInjective(v: Violation, w: Violation)
    ensures Render(v) == Render(w) ==> v == w
  {
    DecodeRender(v);
    DecodeRender(w);
  }
}
