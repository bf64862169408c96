/**
 * The `PantsTargetAddress` value type of the `bsp` package: a directory path,
 * an address kind and an optional target name, written on the wire as
 * `path:target` (one target), `path:` (every target directly in the
 * directory) or `path::` (every target in the directory and below it).
 * The source's constructor takes a `Path`, but the editor builds addresses
 * from `path.toString()` and compares paths as strings, so the model keeps
 * the path as a string.
 */
module BspTargetAddress {
  import opened Wrappers
  import opened JavaStrings

  datatype AddressKind = AllTargetsFlat | AllTargetsDeep | SingleTargets

  /** The constructor stores any combination of path, kind and target. */
  datatype PantsTargetAddress = PantsTargetAddress(path: string, kind: AddressKind, targets: Option<string>)

  /** The exceptions `toAddressString` and `fromString` can raise. */
  datatype AddressError =
    | NoSuchElement                  // `Optional.get` on an absent target
    | ArrayIndexOutOfBounds          // `strings[0]` of an empty split
    | CouldNotParse(message: string) // the explicit `RuntimeException`

  const ParseErrorPrefix := "PantsTargetAddress: could not parse string '"

  /**
   * The addresses the wire form expresses without loss: no colon in the path
   * or the target, a target exactly for the single kind, a non-empty target,
   * and a non-empty path for the two directory-wide kinds.
   */
  predicate WellFormed(a: PantsTargetAddress) {
    && ':' !in a.path
    && (a.kind == SingleTargets <==> a.targets.Some?)
    && (a.targets.Some? ==> a.targets.value != "" && ':' !in a.targets.value)
    && (a.kind != SingleTargets ==> a.path != "")
  }

  /**
   * `toAddressString`: `path:target` for a single target, `path:` for a flat
   * address, `path::` for a deep one; `Optional.get` fails when a
   * single-target address has no target.
   */
  function ToAddressString(a: PantsTargetAddress): (r: Result<string, AddressError>)
    ensures r.Failure? <==> a.kind == SingleTargets && a.targets.None?
    ensures r.Failure? ==> r.error == NoSuchElement
    ensures a.kind == SingleTargets && a.targets.Some? ==> r == Success(a.path + ":" + a.targets.value)
    ensures a.kind == AllTargetsFlat ==> r == Success(a.path + ":")
    ensures a.kind == AllTargetsDeep ==> r == Success(a.path + "::")
  {
    match a.kind
    case SingleTargets =>
      if a.targets.Some? then Success(a.path + ":" + a.targets.value) else Failure(NoSuchElement)
    case AllTargetsFlat => Success(a.path + ":")
    case AllTargetsDeep => Success(a.path + "::")
  }

  /**
   * `fromString`: a split on ':' into exactly two pieces is a single target
   * (checked first, so `a:b:` is single too); otherwise a trailing `::` is
   * deep and a trailing `:` is flat, both at the first piece; anything else
   * is an error naming the input.
   */
  function FromString(s: string): (r: Result<PantsTargetAddress, AddressError>)
    ensures r.Success? ==> ':' !in r.value.path
    ensures r.Success? ==> (r.value.kind == SingleTargets <==> r.value.targets.Some?)
    ensures r.Success? && r.value.targets.Some? ==> r.value.targets.value != "" && ':' !in r.value.targets.value
    ensures r.Failure? ==> r.error != NoSuchElement
  {
    var strings := Split(s, ':');
    if |strings| == 2 then
      Success(PantsTargetAddress(strings[0], SingleTargets, Some(strings[1])))
    else if EndsWith(s, "::") then
      if |strings| == 0 then Failure(ArrayIndexOutOfBounds)
      else Success(PantsTargetAddress(strings[0], AllTargetsDeep, None))
    else if EndsWith(s, ":") then
      if |strings| == 0 then Failure(ArrayIndexOutOfBounds)
      else Success(PantsTargetAddress(strings[0], AllTargetsFlat, None))
    else
      Failure(CouldNotParse(ParseErrorPrefix + s + "'"))
  }

  /** The parsed path is the raw text before the first colon, with no normalisation. */
  lemma ParsedPathIsPrefix(s: string)
    requires FromString(s).Success?
    ensures ':' in s && FromString(s).value.path == s[..IndexOf(s, ':')]
  {
    if EndsWith(s, ":") {
      assert s[|s| - 1..][0] == s[|s| - 1];
    }
  }

  /** `equals`: field-by-field comparison of path, kind and targets, which is value equality. */
  predicate Equals(a: PantsTargetAddress, b: PantsTargetAddress)
    ensures Equals(a, b) <==> a == b
  {
    a.path == b.path && a.kind == b.kind && a.targets == b.targets
  }

  const HashModulus: nat := 0x1_0000_0000

  /** `String.hashCode` as an unsigned 32-bit value: `h = 31 * h + c` over the characters, wrapping. */
  function StringHash(s: string): (h: nat)
    ensures h < HashModulus
  {
    if s == [] then 0 else (31 * StringHash(s[..|s| - 1]) + s[|s| - 1] as int) % HashModulus
  }

  /** `Optional.hashCode`: the value's hash code, or 0 when absent. */
  function OptionHash(o: Option<string>): (h: nat)
    ensures h < HashModulus
    ensures o.None? ==> h == 0
  {
    if o.Some? then StringHash(o.value) else 0
  }

  /**
   * `Objects.hash(path, kind, targets)`: `h = 31 * h + hash(field)` from 1,
   * wrapping at 32 bits. An enum's hash code is its identity hash, fixed only
   * when the program runs, so it is a parameter.
   */
  function HashCode(a: PantsTargetAddress, kindHash: AddressKind -> nat): (h: nat)
    ensures h < HashModulus
  {
    (31 * (31 * (31 + StringHash(a.path)) + kindHash(a.kind)) + OptionHash(a.targets)) % HashModulus
  }

  /** Equal addresses have equal hash codes, whatever the enum's hash codes are. */
  lemma HashCodeAgreesWithEquals(a: PantsTargetAddress, b: PantsTargetAddress, kindHash: AddressKind -> nat)
    requires Equals(a, b)
    ensures HashCode(a, kindHash) == HashCode(b, kindHash)
  {
  }

  /** Reading back what `toAddressString` writes gives the same address. */
  lemma RoundTrip(a: PantsTargetAddress)
    requires WellFormed(a)
    ensures ToAddressString(a).Success?
    ensures FromString(ToAddressString(a).value) == Success(a)
  {
    match a.kind
    case SingleTargets => ParseSingle(a.path, a.targets.value);
    case AllTargetsFlat => ParseFlat(a.path);
    case AllTargetsDeep => ParseDeep(a.path);
  }

  /**
   * Without a trailing colon, parsing succeeds exactly when the input holds
   * one colon, and then splits it there; any other such input is an error
   * whose message contains the input.
   */
  lemma ParseWithoutTrailingColon(s: string)
    requires !EndsWith(s, ":")
    ensures FromString(s).Success? <==> Occurrences(s, ':') == 1
    ensures Occurrences(s, ':') == 1 ==>
      var i := IndexOf(s, ':');
      FromString(s) == Success(PantsTargetAddress(s[..i], SingleTargets, Some(s[i + 1..])))
    ensures Occurrences(s, ':') != 1 ==>
      && FromString(s) == Failure(CouldNotParse(ParseErrorPrefix + s + "'"))
      && Contains(FromString(s).error.message, s)
  {
    FromStringWithoutTrailingColon(s);
    if s != [] {
      assert s[|s| - 1] != ':' by {
        assert s[|s| - 1..] == [s[|s| - 1]];
      }
      SplitNoTrailing(s, ':');
      if Occurrences(s, ':') == 1 {
        PiecesOfSingleSeparator(s, ':');
      }
    }
    if Occurrences(s, ':') != 1 {
      ContainsConcat(ParseErrorPrefix, s, "'");
    }
  }

  /** Without a trailing colon only the two-piece test can succeed. */
  lemma FromStringWithoutTrailingColon(s: string)
    requires !EndsWith(s, ":")
    ensures FromString(s) == if |Split(s, ':')| == 2 then Success(PantsTargetAddress(Split(s, ':')[0], SingleTargets, Some(Split(s, ':')[1])))
      else Failure(CouldNotParse(ParseErrorPrefix + s + "'"))
  {
  }

  /** The two-piece test comes first: `p:t:` is the single target `t`, not a flat address. */
  lemma ParseSingleWinsOverTrailingColon(p: string, t: string)
    requires ':' !in p && ':' !in t && t != ""
    ensures FromString(p + ":" + t + ":") == Success(PantsTargetAddress(p, SingleTargets, Some(t)))
  {
    var s := p + ":" + t + ":";
    assert Join([p, t, ""], ':') == s;
    PiecesOfJoin([p, t, ""], ':');
    assert ':' in s by { assert s[|p|] == ':'; }
    assert DropTrailingEmpty([p, t, ""]) == [p, t] by { assert [p, t, ""][..2] == [p, t]; }
  }

  /** A non-empty run of colons (`:`, `::`, ...) splits into nothing and indexing it fails. */
  lemma ParseOnlyColons(s: string)
    requires s != [] && forall k :: 0 <= k < |s| ==> s[k] == ':'
    ensures FromString(s) == Failure(ArrayIndexOutOfBounds)
  {
    assert Split(s, ':') == [];
    assert EndsWith(s, ":") by { assert s[|s| - 1..] == [s[|s| - 1]]; }
  }

  /** `p:t` with a colon-free path and a non-empty colon-free target is that single target. */
  lemma ParseSingle(p: string, t: string)
    requires ':' !in p && ':' !in t && t != ""
    ensures FromString(p + ":" + t) == Success(PantsTargetAddress(p, SingleTargets, Some(t)))
  {
    JoinOfTwo(p, t, ':');
    SplitOfJoin([p, t], ':');
  }

  /** `p:` with a non-empty colon-free path is every target directly in `p`. */
  lemma ParseFlat(p: string)
    requires ':' !in p && p != ""
    ensures FromString(p + ":") == Success(PantsTargetAddress(p, AllTargetsFlat, None))
  {
    var s := p + ":";
    JoinOfTwo(p, "", ':');
    assert s == p + [':'] + "";
    PiecesOfJoin([p, ""], ':');
    assert ':' in s by { assert s[|p|] == ':'; }
    assert DropTrailingEmpty([p, ""]) == [p] by { assert [p, ""][..1] == [p]; }
    assert !EndsWith(s, "::") by { assert s[|s| - 2] == p[|p| - 1]; }
  }

  /** `p::` with a non-empty colon-free path is every target below `p`. */
  lemma ParseDeep(p: string)
    requires ':' !in p && p != ""
    ensures FromString(p + "::") == Success(PantsTargetAddress(p, AllTargetsDeep, None))
  {
    var s := p + "::";
    JoinOfThree(p, "", "", ':');
    assert s == p + [':'] + "" + [':'] + "";
    PiecesOfJoin([p, "", ""], ':');
    assert ':' in s by { assert s[|p|] == ':'; }
    assert DropTrailingEmpty([p, "", ""]) == [p] by {
      assert [p, "", ""][..2] == [p, ""];
      assert [p, ""][..1] == [p];
    }
    assert s[|s| - 2..] == "::";
  }

  /** The wire forms of the plugin's unit tests: `project:target` is a single target. */
  lemma ParseSingleExample()
    ensures FromString("project:target") == Success(PantsTargetAddress("project", SingleTargets, Some("target")))
  {
    var s := "project:target";
    assert s == "project" + ":" + "target" by {
      assert s[..7] == "project" && s[8..] == "target";
      assert s == s[..7] + [s[7]] + s[8..];
    }
    ParseSingle("project", "target");
  }

  /** `project::` is every target below `project`. */
  lemma ParseDeepExample()
    ensures FromString("project::") == Success(PantsTargetAddress("project", AllTargetsDeep, None))
  {
    ParseDeep("project");
    assert "project" + "::" == "project::";
  }

  /** `project:` is every target directly in `project`. */
  lemma ParseFlatExample()
    ensures FromString("project:") == Success(PantsTargetAddress("project", AllTargetsFlat, None))
  {
    ParseFlat("project");
    assert "project" + ":" == "project:";
  }
}
