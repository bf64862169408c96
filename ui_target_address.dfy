/**
 * The `PantsTargetAddress` copy of the `bsp.ui` package: a string path and a
 * selection kind (`ALL_TARGETS_RECURSIVE` where the `bsp` copy says
 * `ALL_TARGETS_DEEP`), the same wire grammar, and an unparseable input
 * raising a `RuntimeException` with an empty message.
 */
module UiTargetAddress {
  import opened Wrappers
  import opened JavaStrings
  import Bsp = BspTargetAddress

  datatype SelectionKind = AllTargetsFlat | AllTargetsRecursive | SingleTargets

  datatype PantsTargetAddress = PantsTargetAddress(path: string, kind: SelectionKind, targets: Option<string>)

  /** `toAddressString`: `p:t`, `p:` or `p::` by kind; `Optional.get` fails on a single kind without target. */
  function ToAddressString(a: PantsTargetAddress): (r: Result<string, Bsp.AddressError>)
    ensures r.Failure? <==> a.kind == SingleTargets && a.targets.None?
    ensures r.Failure? ==> r.error == Bsp.NoSuchElement
    ensures a.kind == SingleTargets && a.targets.Some? ==> r == Success(a.path + ":" + a.targets.value)
    ensures a.kind == AllTargetsFlat ==> r == Success(a.path + ":")
    ensures a.kind == AllTargetsRecursive ==> r == Success(a.path + "::")
  {
    match a.kind
    case SingleTargets =>
      if a.targets.Some? then Success(a.path + ":" + a.targets.value) else Failure(Bsp.NoSuchElement)
    case AllTargetsFlat => Success(a.path + ":")
    case AllTargetsRecursive => Success(a.path + "::")
  }

  /** `fromString`: the same decision order as the `bsp` copy; the path is the raw first piece. */
  function FromString(s: string): (r: Result<PantsTargetAddress, Bsp.AddressError>)
    ensures r.Failure? && r.error.CouldNotParse? ==> r.error.message == ""
  {
    var strings := Split(s, ':');
    if |strings| == 2 then
      Success(PantsTargetAddress(strings[0], SingleTargets, Some(strings[1])))
    else if EndsWith(s, "::") then
      if |strings| == 0 then Failure(Bsp.ArrayIndexOutOfBounds)
      else Success(PantsTargetAddress(strings[0], AllTargetsRecursive, None))
    else if EndsWith(s, ":") then
      if |strings| == 0 then Failure(Bsp.ArrayIndexOutOfBounds)
      else Success(PantsTargetAddress(strings[0], AllTargetsFlat, None))
    else
      Failure(Bsp.CouldNotParse(""))
  }

  /** `equals`: field-by-field comparison of path, kind and targets, which is value equality. */
  predicate Equals(a: PantsTargetAddress, b: PantsTargetAddress)
    ensures Equals(a, b) <==> a == b
  {
    a.path == b.path && a.kind == b.kind && a.targets == b.targets
  }

  /** `Objects.hash(path, kind, targets)`, as in the `bsp` copy; the enum's hash codes are a parameter. */
  function HashCode(a: PantsTargetAddress, kindHash: SelectionKind -> nat): (h: nat)
    ensures h < Bsp.HashModulus
  {
    (31 * (31 * (31 + Bsp.StringHash(a.path)) + kindHash(a.kind)) + Bsp.OptionHash(a.targets)) % Bsp.HashModulus
  }

  /** Equal addresses have equal hash codes. */
  lemma HashCodeAgreesWithEquals(a: PantsTargetAddress, b: PantsTargetAddress, kindHash: SelectionKind -> nat)
    requires Equals(a, b)
    ensures HashCode(a, kindHash) == HashCode(b, kindHash)
  {
  }

  /** The `bsp` address with the same path, target and corresponding kind. */
  function ToBsp(a: PantsTargetAddress): (b: Bsp.PantsTargetAddress)
    ensures b.path == a.path && b.targets == a.targets
    ensures a.kind == AllTargetsFlat <==> b.kind == Bsp.AllTargetsFlat
    ensures a.kind == AllTargetsRecursive <==> b.kind == Bsp.AllTargetsDeep
    ensures a.kind == SingleTargets <==> b.kind == Bsp.SingleTargets
  {
    var kind := match a.kind
      case AllTargetsFlat => Bsp.AllTargetsFlat
      case AllTargetsRecursive => Bsp.AllTargetsDeep
      case SingleTargets => Bsp.SingleTargets;
    Bsp.PantsTargetAddress(a.path, kind, a.targets)
  }

  /** The two copies write the same string for corresponding addresses. */
  lemma SerialisationAgreesWithBsp(a: PantsTargetAddress)
    ensures ToAddressString(a) == Bsp.ToAddressString(ToBsp(a))
  {
  }

  /** The two copies read every string alike, up to the kind's name and the empty error message. */
  lemma ParsingAgreesWithBsp(s: string)
    ensures FromString(s).Success? <==> Bsp.FromString(s).Success?
    ensures FromString(s).Success? ==> ToBsp(FromString(s).value) == Bsp.FromString(s).value
    ensures FromString(s).Failure? ==>
      FromString(s).error == if Bsp.FromString(s).error.CouldNotParse? then Bsp.CouldNotParse("") else Bsp.FromString(s).error
  {
  }

  /** The parsed path is the raw text before the first colon, with no normalisation. */
  lemma ParsedPathIsPrefix(s: string)
    requires FromString(s).Success?
    ensures ':' in s && FromString(s).value.path == s[..IndexOf(s, ':')]
  {
    ParsingAgreesWithBsp(s);
    Bsp.ParsedPathIsPrefix(s);
  }

  /** An unparseable string without a trailing colon (`abc`, `a:b:c`, `a::b`) raises the empty-message error. */
  lemma ParseWithoutTrailingColon(s: string)
    requires !EndsWith(s, ":")
    ensures FromString(s).Success? <==> Occurrences(s, ':') == 1
    ensures Occurrences(s, ':') != 1 ==> FromString(s) == Failure(Bsp.CouldNotParse(""))
  {
    ParsingAgreesWithBsp(s);
    Bsp.ParseWithoutTrailingColon(s);
  }

  /** Round trip, under the same conditions as the `bsp` copy's. */
  lemma RoundTrip(a: PantsTargetAddress)
    requires Bsp.WellFormed(ToBsp(a))
    ensures ToAddressString(a).Success?
    ensures FromString(ToAddressString(a).value) == Success(a)
  {
    SerialisationAgreesWithBsp(a);
    Bsp.RoundTrip(ToBsp(a));
    var s := ToAddressString(a).value;
    ParsingAgreesWithBsp(s);
    var b := FromString(s).value;
    assert ToBsp(b) == ToBsp(a);
    assert b.kind == a.kind by {
      match a.kind
      case AllTargetsFlat =>
      case AllTargetsRecursive =>
      case SingleTargets =>
    }
  }
}
