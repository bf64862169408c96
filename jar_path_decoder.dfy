/**
 * `AmendEditorNotificationsProvider.jarPathToTarget`: the path of a file
 * opened inside a built jar, such as `/tmp/a.b.name-sources.jar!/F`, names
 * the target that produced the jar, here `a/b:name`.
 */
module JarPathDecoder {
  import opened Wrappers
  import opened JavaStrings
  import opened FilePaths

  /** How many paths `Stream.iterate(...).limit(100)` visits. */
  const MaxAncestors: nat := 100
  const SourceFileSuffix := "-sources.jar!"
  const ClassFileSuffix := ".jar!"
  const SourcesMarker := "-sources"

  /** `Stream.limit` with a negative size: the only failure of the decoder. */
  datatype DecodeError = IllegalArgument

  /** `Stream.iterate(p, x -> x != null ? x.getParent() : null).limit(n)`. */
  function Ancestry(p: Option<Path>, n: nat): (r: seq<Option<Path>>)
    ensures |r| == n
    decreases n
  {
    if n == 0 then [] else [p] + Ancestry(if p.Some? then Parent(p.value) else None, n - 1)
  }

  /** `.filter(Objects::nonNull).map(Path::getFileName).filter(Objects::nonNull)`. */
  function FileNames(ps: seq<Option<Path>>): seq<string> {
    if ps == [] then []
    else
      (if ps[0].Some? && FileName(ps[0].value).Some? then [FileName(ps[0].value).value] else [])
      + FileNames(ps[1..])
  }

  /** The file names `jarPathToTarget` examines: those of `p` and its ancestors, leaf first. */
  function ExaminedNames(p: Path): (r: seq<string>)
    ensures |p.names| > 0 ==> r == Reversed(p.names)[..Min(|p.names|, MaxAncestors)]
    ensures |p.names| == 0 ==> r == if p.absolute then [] else [""]
  {
    if |p.names| > 0 then
      AncestryNames(p, MaxAncestors);
      FileNames(Ancestry(Some(p), MaxAncestors))
    else
      NoNamesAboveEmptyPath(p, MaxAncestors);
      FileNames(Ancestry(Some(p), MaxAncestors))
  }

  function Reversed(s: seq<string>): (r: seq<string>)
    ensures |r| == |s|
    ensures forall k :: 0 <= k < |s| ==> r[k] == s[|s| - 1 - k]
  {
    if s == [] then [] else [s[|s| - 1]] + Reversed(s[..|s| - 1])
  }

  function Min(a: nat, b: nat): nat {
    if a <= b then a else b
  }

  /** `findFirst` of the names ending with `.jar!`. */
  function FirstJarName(names: seq<string>): (r: Option<string>)
    ensures r.None? <==> forall k :: 0 <= k < |names| ==> !EndsWith(names[k], ClassFileSuffix)
    ensures r.Some? ==> exists k :: (0 <= k < |names| && names[k] == r.value && EndsWith(names[k], ClassFileSuffix)
      && forall j :: 0 <= j < k ==> !EndsWith(names[j], ClassFileSuffix))
  {
    if names == [] then None
    else if EndsWith(names[0], ClassFileSuffix) then Some(names[0])
    else
      var r := FirstJarName(names[1..]);
      assert r.Some? ==> exists k :: (0 <= k < |names[1..]| && names[1..][k] == r.value
        && EndsWith(names[1..][k], ClassFileSuffix)
        && forall j :: 0 <= j < k ==> !EndsWith(names[1..][j], ClassFileSuffix));
      assert r.Some? ==> exists k :: (1 <= k < |names| && names[k] == r.value && EndsWith(names[k], ClassFileSuffix)
        && forall j :: 1 <= j < k ==> !EndsWith(names[j], ClassFileSuffix));
      r
  }

  /** A name ending with `.jar!` that contains `-sources` is at least 13 characters long. */
  lemma SourcesNameIsLongEnough(name: string)
    requires EndsWith(name, ClassFileSuffix) && Contains(name, SourcesMarker)
    ensures |name| >= |SourceFileSuffix|
  {
    MarkerHasNoDot();
    OccurrenceBeforeSuffix(name, SourcesMarker, ClassFileSuffix);
  }

  lemma MarkerHasNoDot()
    ensures ClassFileSuffix[0] !in SourcesMarker
  {
    assert forall k :: 0 <= k < |SourcesMarker| ==> SourcesMarker[k] != '.';
  }

  /** The jar name without `-sources.jar!` when it contains `-sources`, else without `.jar!`. */
  function Stem(name: string): (stem: string)
    requires EndsWith(name, ClassFileSuffix)
    ensures |stem| <= |name| && stem == name[..|stem|]
  {
    if Contains(name, SourcesMarker) then
      SourcesNameIsLongEnough(name);
      name[..|name| - |SourceFileSuffix|]
    else
      name[..|name| - |ClassFileSuffix|]
  }

  /**
   * The target named by the dot-separated pieces of a jar name's stem: the
   * pieces but the last, joined by `/`, then `:`, then the last piece. No
   * pieces (as for the stem `.`) makes `limit(-1)` throw.
   */
  function TargetOfParts(parts: seq<string>): (r: Result<string, DecodeError>)
    ensures r.Failure? <==> parts == []
    ensures |parts| >= 1 ==> r.value == Join(parts[..|parts| - 1], '/') + ":" + parts[|parts| - 1]
  {
    if |parts| == 0 then Failure(IllegalArgument)
    else Success(Join(parts[..|parts| - 1], '/') + ":" + parts[|parts| - 1])
  }

  /** The target of one jar name, read from the pieces of its stem. */
  function DecodeJarName(name: string): (r: Result<string, DecodeError>)
    requires EndsWith(name, ClassFileSuffix)
    ensures r.Failure? <==> Stem(name) != "" && forall k :: 0 <= k < |Stem(name)| ==> Stem(name)[k] == '.'
    ensures r.Success? ==> '.' !in r.value && ':' in r.value
  {
    PartsMakeDotFreeTarget(Split(Stem(name), '.'));
    TargetOfParts(Split(Stem(name), '.'))
  }

  /** Dot-free pieces make a dot-free target. */
  lemma PartsMakeDotFreeTarget(parts: seq<string>)
    requires forall k :: 0 <= k < |parts| ==> '.' !in parts[k]
    ensures TargetOfParts(parts).Success? ==> '.' !in TargetOfParts(parts).value && ':' in TargetOfParts(parts).value
  {
    if parts != [] {
      var init := parts[..|parts| - 1];
      JoinAvoids(init, '/', '.');
      var r := Join(init, '/') + ":" + parts[|parts| - 1];
      assert r[|Join(init, '/')|] == ':';
    }
  }

  /**
   * `jarPathToTarget`: empty exactly when no examined name ends with `.jar!`,
   * otherwise the decoding of the leaf-most such name.
   */
  function JarPathToTarget(p: Path): (r: Result<Option<string>, DecodeError>)
    ensures r == Success(None) <==> forall k :: 0 <= k < |ExaminedNames(p)| ==> !EndsWith(ExaminedNames(p)[k], ClassFileSuffix)
    ensures r != Success(None) ==> var names := ExaminedNames(p);
      exists k :: 0 <= k < |names| && EndsWith(names[k], ClassFileSuffix)
        && (forall j :: 0 <= j < k ==> !EndsWith(names[j], ClassFileSuffix))
        && r == SomeTarget(DecodeJarName(names[k]))
  {
    match FirstJarName(ExaminedNames(p))
    case None => Success(None)
    case Some(name) => SomeTarget(DecodeJarName(name))
  }

  /** A decoded target as the present result of `flatMap`. */
  function SomeTarget(d: Result<string, DecodeError>): (r: Result<Option<string>, DecodeError>)
    ensures r.Success? <==> d.Success?
    ensures d.Success? ==> r.value == Some(d.value)
  {
    match d
    case Success(t) => Success(Some(t))
    case Failure(e) => Failure(e)
  }

  lemma {:induction false} NoNamesPastTheTop(n: nat)
    ensures FileNames(Ancestry(None, n)) == []
  {
    if n > 0 {
      NoNamesPastTheTop(n - 1);
    }
  }

  /**
   * The names examined are the last `n` names of the path, leaf first:
   * components above the hundredth ancestor are never looked at.
   */
  lemma {:induction false} AncestryNames(p: Path, n: nat)
    requires |p.names| > 0
    ensures FileNames(Ancestry(Some(p), n)) == Reversed(p.names)[..Min(|p.names|, n)]
    decreases n
  {
    if n > 0 {
      var last := p.names[|p.names| - 1];
      var init := p.names[..|p.names| - 1];
      var rest := Ancestry(Parent(p), n - 1);
      assert FileNames(Ancestry(Some(p), n)) == [last] + FileNames(rest) by {
        assert Ancestry(Some(p), n) == [Some(p)] + rest;
        assert ([Some(p)] + rest)[1..] == rest;
      }
      assert Reversed(p.names) == [last] + Reversed(init);
      var m := Min(|init|, n - 1);
      assert Reversed(p.names)[..Min(|p.names|, n)] == [last] + Reversed(init)[..m];
      if |p.names| == 1 {
        NoNamesAboveSingleName(p, n - 1);
      } else {
        assert Parent(p) == Some(Path(p.absolute, init));
        AncestryNames(Path(p.absolute, init), n - 1);
      }
    }
  }

  /** Above a path of one name there is at most the root, which has no file name. */
  lemma NoNamesAboveSingleName(p: Path, n: nat)
    requires |p.names| == 1
    ensures FileNames(Ancestry(Parent(p), n)) == []
  {
    if p.absolute && n > 0 {
      var up := Parent(p);
      assert up == Some(Path(true, []));
      assert Ancestry(up, n) == [up] + Ancestry(None, n - 1);
      NoNamesPastTheTop(n - 1);
      assert ([up] + Ancestry(None, n - 1))[1..] == Ancestry(None, n - 1);
    } else {
      NoNamesPastTheTop(n);
    }
  }

  /** The root has no file name and no parent; the empty relative path is its own file name. */
  lemma NoNamesAboveEmptyPath(p: Path, n: nat)
    requires |p.names| == 0 && n > 0
    ensures FileNames(Ancestry(Some(p), n)) == if p.absolute then [] else [""]
  {
    var rest := Ancestry(None, n - 1);
    assert Ancestry(Some(p), n) == [Some(p)] + rest;
    assert ([Some(p)] + rest)[1..] == rest;
    NoNamesPastTheTop(n - 1);
  }

  /** The jar name a build writes for target `dir1/.../dirN:target`, with or without `-sources`. */
  function ArtifactName(dirs: seq<string>, target: string, sources: bool): string {
    Join(dirs + [target], '.') + JarSuffix(sources)
  }

  /**
   * Decoding an artifact name gives back its target address, as long as no
   * piece holds a dot and, for a class jar, the name does not contain `-sources`.
   */
  lemma DecodeArtifactName(dirs: seq<string>, target: string, sources: bool)
    requires target != "" && '.' !in target
    requires forall k :: 0 <= k < |dirs| ==> '.' !in dirs[k]
    requires !sources ==> !Contains(ArtifactName(dirs, target, false), SourcesMarker)
    ensures EndsWith(ArtifactName(dirs, target, sources), ClassFileSuffix)
    ensures DecodeJarName(ArtifactName(dirs, target, sources)) == Success(Join(dirs, '/') + ":" + target)
  {
    var xs := dirs + [target];
    var name := ArtifactName(dirs, target, sources);
    StemOfArtifact(Join(xs, '.'), sources);
    assert Stem(name) == Join(xs, '.');
    PiecesWithoutDots(dirs, target);
    SplitOfJoin(xs, '.');
    assert DecodeJarName(name) == TargetOfParts(xs);
    assert xs[..|xs| - 1] == dirs;
  }

  /** The pieces of an artifact name hold no dot when the directories and the target do not. */
  lemma PiecesWithoutDots(dirs: seq<string>, target: string)
    requires '.' !in target
    requires forall k :: 0 <= k < |dirs| ==> '.' !in dirs[k]
    ensures forall k :: 0 <= k < |dirs + [target]| ==> '.' !in (dirs + [target])[k]
  {
    forall k | 0 <= k < |dirs + [target]|
      ensures '.' !in (dirs + [target])[k]
    {
      if k < |dirs| {
        assert (dirs + [target])[k] == dirs[k];
      }
    }
  }

  /** The stem of `j` followed by a jar suffix is `j`. */
  lemma StemOfArtifact(j: string, sources: bool)
    requires !sources ==> !Contains(j + ClassFileSuffix, SourcesMarker)
    ensures EndsWith(j + JarSuffix(sources), ClassFileSuffix)
    ensures Stem(j + JarSuffix(sources)) == j
  {
    var name := j + JarSuffix(sources);
    assert name[|name| - 5..] == ClassFileSuffix;
    if sources {
      assert name == j + SourcesMarker + ClassFileSuffix;
      ContainsConcat(j, SourcesMarker, ClassFileSuffix);
    }
    assert name[..|j|] == j;
  }

  /** Neither `myFile` nor `tmp` is a jar name. */
  lemma TestNamesAreNoJars()
    ensures !EndsWith("myFile", ClassFileSuffix) && !EndsWith("tmp", ClassFileSuffix)
  {
  }

  /** `Paths.get("/tmp/<name>/<leaf>")` for names without a separator. */
  lemma TmpPath(name: string, leaf: string)
    requires name != "" && '/' !in name && leaf != "" && '/' !in leaf
    ensures Of("/tmp/" + name + "/" + leaf) == Path(true, ["tmp", name, leaf])
  {
    JoinOfThree("tmp", name, leaf, '/');
    assert "/tmp/" + name + "/" + leaf == ToString(Path(true, ["tmp", name, leaf]));
    OfToString(Path(true, ["tmp", name, leaf]));
  }

  /** `Paths.get("/tmp/<name>")` for a name without a separator. */
  lemma TmpName(name: string)
    requires name != "" && '/' !in name
    ensures Of("/tmp/" + name) == Path(true, ["tmp", name])
  {
    JoinOfTwo("tmp", name, '/');
    assert "/tmp/" + name == ToString(Path(true, ["tmp", name]));
    OfToString(Path(true, ["tmp", name]));
  }

  /** The unit tests' layout `/tmp/<jar>/myFile` names the target of its jar. */
  lemma FileInsideTmpJar(jar: string, address: string)
    requires EndsWith(jar, ClassFileSuffix) && '/' !in jar && DecodeJarName(jar) == Success(address)
    ensures JarPathToTarget(Of("/tmp/" + jar + "/myFile")) == Success(Some(address))
  {
    TestNamesAreNoJars();
    TmpPath(jar, "myFile");
    assert "/tmp/" + jar + "/myFile" == "/tmp/" + jar + "/" + "myFile";
    JarInsideTmp(jar, address);
  }

  lemma JarInsideTmp(jar: string, address: string)
    requires EndsWith(jar, ClassFileSuffix) && DecodeJarName(jar) == Success(address)
    ensures JarPathToTarget(Path(true, ["tmp", jar, "myFile"])) == Success(Some(address))
  {
    var p := Path(true, ["tmp", jar, "myFile"]);
    assert Reversed(p.names) == ["myFile", jar, "tmp"];
    assert ExaminedNames(p) == ["myFile", jar, "tmp"];
    TestNamesAreNoJars();
    assert FirstJarName(["myFile", jar, "tmp"]) == Some(jar) by {
      assert ["myFile", jar, "tmp"][1..] == [jar, "tmp"];
    }
  }

  /** The jar suffix of a class jar or of a sources jar. */
  function JarSuffix(sources: bool): string {
    if sources then SourceFileSuffix else ClassFileSuffix
  }

  /** A jar of a target one directory deep decodes to `dir:target`. */
  lemma OneDirectoryArtifact(dir: string, target: string, sources: bool, name: string, address: string)
    requires '.' !in dir && '.' !in target && target != ""
    requires name == dir + "." + target + JarSuffix(sources) && address == dir + ":" + target
    requires !sources ==> '-' !in name
    ensures EndsWith(name, ClassFileSuffix) && DecodeJarName(name) == Success(address)
  {
    JoinOfTwo(dir, target, '.');
    assert [dir] + [target] == [dir, target];
    assert name == ArtifactName([dir], target, sources);
    if !sources {
      NotContainsWithoutFirst(name, SourcesMarker);
    }
    DecodeArtifactName([dir], target, sources);
  }

  /** A jar of a target two directories deep decodes to `dir1/dir2:target`. */
  lemma TwoDirectoryArtifact(d1: string, d2: string, target: string, sources: bool, name: string, address: string)
    requires '.' !in d1 && '.' !in d2 && '.' !in target && target != ""
    requires name == d1 + "." + d2 + "." + target + JarSuffix(sources) && address == d1 + "/" + d2 + ":" + target
    requires !sources ==> '-' !in name
    ensures EndsWith(name, ClassFileSuffix) && DecodeJarName(name) == Success(address)
  {
    JoinOfThree(d1, d2, target, '.');
    JoinOfTwo(d1, d2, '/');
    assert [d1, d2] + [target] == [d1, d2, target];
    assert name == ArtifactName([d1, d2], target, sources);
    if !sources {
      NotContainsWithoutFirst(name, SourcesMarker);
    }
    DecodeArtifactName([d1, d2], target, sources);
  }

  lemma TestPiecesHaveNoDot()
    ensures '.' !in "directory" && '.' !in "dirparent" && '.' !in "dirchild" && '.' !in "targetname"
  {
  }

  lemma FlatDirectorySpelling()
    ensures "directory.targetname.jar!" == "directory" + "." + "targetname" + JarSuffix(false)
    ensures "directory:targetname" == "directory" + ":" + "targetname"
  {
  }

  lemma FlatDirectoryHasNoDash()
    ensures '-' !in "directory.targetname.jar!" && '/' !in "directory.targetname.jar!"
  {
  }


  /** The unit tests' examples: a class jar one directory deep. */
  lemma FlatDirectoryExample()
    ensures JarPathToTarget(Of("/tmp/" + "directory.targetname.jar!" + "/myFile")) == Success(Some("directory:targetname"))
  {
    TestPiecesHaveNoDot();
    FlatDirectorySpelling();
    FlatDirectoryHasNoDash();
    OneDirectoryArtifact("directory", "targetname", false, "directory.targetname.jar!", "directory:targetname");
    FileInsideTmpJar("directory.targetname.jar!", "directory:targetname");
  }

  lemma NestedDirectorySpelling()
    ensures "dirparent.dirchild.targetname.jar!" == "dirparent" + "." + "dirchild" + "." + "targetname" + JarSuffix(false)
  {
  }

  lemma NestedAddressSpelling()
    ensures "dirparent/dirchild:targetname" == "dirparent" + "/" + "dirchild" + ":" + "targetname"
  {
  }

  lemma NestedDirectoryHasNoDash()
    ensures '-' !in "dirparent.dirchild.targetname.jar!" && '/' !in "dirparent.dirchild.targetname.jar!"
  {
  }


  /** A class jar two directories deep. */
  lemma NestedDirectoryExample()
    ensures JarPathToTarget(Of("/tmp/" + "dirparent.dirchild.targetname.jar!" + "/myFile"))
      == Success(Some("dirparent/dirchild:targetname"))
  {
    var jar, address := "dirparent.dirchild.targetname.jar!", "dirparent/dirchild:targetname";
    TestPiecesHaveNoDot();
    NestedDirectorySpelling();
    NestedAddressSpelling();
    NestedDirectoryHasNoDash();
    TwoDirectoryArtifact("dirparent", "dirchild", "targetname", false, jar, address);
    FileInsideTmpJar(jar, address);
  }

  lemma SourcesJarSpelling()
    ensures "directory.targetname-sources.jar!" == "directory" + "." + "targetname" + JarSuffix(true)
  {
  }

  lemma SourcesJarHasNoSlash()
    ensures '/' !in "directory.targetname-sources.jar!"
  {
  }


  /** A sources jar one directory deep decodes like its class jar. */
  lemma SourcesJarExample()
    ensures JarPathToTarget(Of("/tmp/" + "directory.targetname-sources.jar!" + "/myFile"))
      == Success(Some("directory:targetname"))
  {
    TestPiecesHaveNoDot();
    FlatDirectorySpelling();
    SourcesJarSpelling();
    SourcesJarHasNoSlash();
    OneDirectoryArtifact("directory", "targetname", true, "directory.targetname-sources.jar!", "directory:targetname");
    FileInsideTmpJar("directory.targetname-sources.jar!", "directory:targetname");
  }

  lemma NestedSourcesJarSpelling()
    ensures "dirparent.dirchild.targetname-sources.jar!" == "dirparent.dirchild.targetname" + JarSuffix(true)
    ensures "dirparent.dirchild.targetname" == "dirparent" + "." + "dirchild" + "." + "targetname"
  {
  }

  lemma NestedSourcesJarHasNoSlash()
    ensures '/' !in "dirparent.dirchild.targetname-sources.jar!"
  {
  }


  /** A sources jar two directories deep decodes like its class jar. */
  lemma NestedSourcesJarExample()
    ensures JarPathToTarget(Of("/tmp/" + "dirparent.dirchild.targetname-sources.jar!" + "/myFile"))
      == Success(Some("dirparent/dirchild:targetname"))
  {
    var jar, address := "dirparent.dirchild.targetname-sources.jar!", "dirparent/dirchild:targetname";
    TestPiecesHaveNoDot();
    NestedSourcesJarSpelling();
    NestedSourcesJarHasNoSlash();
    NestedAddressSpelling();
    TwoDirectoryArtifact("dirparent", "dirchild", "targetname", true, jar, address);
    FileInsideTmpJar(jar, address);
  }

  /** A path without any `.jar!` component, such as `/tmp/abc`, names no target. */
  lemma NoJarExample()
    ensures JarPathToTarget(Of("/tmp/abc")) == Success(None)
  {
    TmpName("abc");
    assert "/tmp/abc" == "/tmp/" + "abc";
    NoJarInTmpAbc();
  }

  lemma NoJarInTmpAbc()
    ensures JarPathToTarget(Path(true, ["tmp", "abc"])) == Success(None)
  {
    var p := Path(true, ["tmp", "abc"]);
    assert Reversed(p.names) == ["abc", "tmp"];
    assert ExaminedNames(p) == ["abc", "tmp"];
    assert !EndsWith("abc", ClassFileSuffix) && !EndsWith("tmp", ClassFileSuffix);
  }

  /**
   * As written, a class jar whose name holds `-sources` anywhere loses 13
   * characters: the jar of target `a:test-sources-util` decodes to
   * `a:test-sour`.
   */
  lemma SourcesInsideNameMisdecoded()
    ensures EndsWith(ArtifactName(["a"], "test-sources-util", false), ClassFileSuffix)
    ensures DecodeJarName(ArtifactName(["a"], "test-sources-util", false)) == Success("a:test-sour")
  {
    assert "a" + ":" + "test-sour" == "a:test-sour";
    assert Join(["a"], '/') == "a";
    assert ["a", "test-sour"][..1] == ["a"];
    var name := ArtifactName(["a"], "test-sources-util", false);
    MisdecodedName();
    MisdecodedStem(name);
    MisdecodedPieces("a.test-sour");
  }

  lemma MisdecodedName()
    ensures ArtifactName(["a"], "test-sources-util", false) == "a.test-sources-util.jar!"
  {
    assert Join(["a", "test-sources-util"], '.') == "a.test-sources-util";
  }

  lemma MisdecodedStem(name: string)
    requires name == "a.test-sources-util.jar!"
    ensures EndsWith(name, ClassFileSuffix) && Stem(name) == "a.test-sour"
  {
    assert name == "a.test" + SourcesMarker + "-util.jar!";
    ContainsConcat("a.test", SourcesMarker, "-util.jar!");
    assert name[..|name| - |SourceFileSuffix|] == "a.test-sour";
  }

  lemma MisdecodedPieces(stem: string)
    requires stem == "a.test-sour"
    ensures Split(stem, '.') == ["a", "test-sour"]
  {
    assert Join(["a", "test-sour"], '.') == stem;
    SplitOfJoin(["a", "test-sour"], '.');
  }

  /** The corrected stem: `-sources.jar!` is removed only when the name ends with it. */
  function StemBySuffix(name: string): (stem: string)
    requires EndsWith(name, ClassFileSuffix)
    ensures EndsWith(name, SourceFileSuffix) ==> name == stem + SourceFileSuffix
    ensures !EndsWith(name, SourceFileSuffix) ==> name == stem + ClassFileSuffix
  {
    if EndsWith(name, SourceFileSuffix) then name[..|name| - |SourceFileSuffix|]
    else name[..|name| - |ClassFileSuffix|]
  }

  /** `DecodeJarName` with the corrected stem. */
  function DecodeJarNameBySuffix(name: string): (r: Result<string, DecodeError>)
    requires EndsWith(name, ClassFileSuffix)
    ensures r.Failure? <==> StemBySuffix(name) != "" && forall k :: 0 <= k < |StemBySuffix(name)| ==> StemBySuffix(name)[k] == '.'
    ensures r.Success? ==> '.' !in r.value && ':' in r.value
  {
    PartsMakeDotFreeTarget(Split(StemBySuffix(name), '.'));
    TargetOfParts(Split(StemBySuffix(name), '.'))
  }

  /** `jarPathToTarget` with the corrected stem. */
  function JarPathToTargetBySuffix(p: Path): (r: Result<Option<string>, DecodeError>)
    ensures r == Success(None) <==> forall k :: 0 <= k < |ExaminedNames(p)| ==> !EndsWith(ExaminedNames(p)[k], ClassFileSuffix)
    ensures r != Success(None) ==> var names := ExaminedNames(p);
      exists k :: 0 <= k < |names| && EndsWith(names[k], ClassFileSuffix)
        && (forall j :: 0 <= j < k ==> !EndsWith(names[j], ClassFileSuffix))
        && r == SomeTarget(DecodeJarNameBySuffix(names[k]))
  {
    match FirstJarName(ExaminedNames(p))
    case None => Success(None)
    case Some(name) => SomeTarget(DecodeJarNameBySuffix(name))
  }

  /** A dot-joined stem ends with `-sources` only when its last piece does. */
  lemma StemEndsWithMarker(xs: seq<string>)
    requires |xs| >= 1
    ensures EndsWith(Join(xs, '.'), SourcesMarker) ==> EndsWith(xs[|xs| - 1], SourcesMarker)
  {
    if |xs| >= 2 {
      JoinEndsWithLast(xs, '.');
      var head := Join(xs[..|xs| - 1], '.') + ['.'];
      assert Join(xs, '.') == head + xs[|xs| - 1];
      assert '.' !in SourcesMarker;
      EndsWithPastSeparator(head, xs[|xs| - 1], SourcesMarker);
    }
  }

  /**
   * The corrected decoder inverts the artifact naming for every target whose
   * pieces hold no dot, whatever they contain, except a class jar of a target
   * that itself ends with `-sources`, which is spelled like a sources jar.
   */
  lemma DecodeArtifactNameBySuffix(dirs: seq<string>, target: string, sources: bool)
    requires target != "" && '.' !in target
    requires forall k :: 0 <= k < |dirs| ==> '.' !in dirs[k]
    requires !sources ==> !EndsWith(target, SourcesMarker)
    ensures EndsWith(ArtifactName(dirs, target, sources), ClassFileSuffix)
    ensures DecodeJarNameBySuffix(ArtifactName(dirs, target, sources)) == Success(Join(dirs, '/') + ":" + target)
  {
    var xs := dirs + [target];
    var name := ArtifactName(dirs, target, sources);
    StemEndsWithMarker(xs);
    StemBySuffixOfArtifact(Join(xs, '.'), sources);
    assert StemBySuffix(name) == Join(xs, '.');
    PiecesWithoutDots(dirs, target);
    SplitOfJoin(xs, '.');
    assert DecodeJarNameBySuffix(name) == TargetOfParts(xs);
    assert xs[..|xs| - 1] == dirs;
  }

  /** The corrected stem of `j` followed by a jar suffix is `j`, unless a class jar's `j` ends with `-sources`. */
  lemma StemBySuffixOfArtifact(j: string, sources: bool)
    requires !sources ==> !EndsWith(j, SourcesMarker)
    ensures EndsWith(j + JarSuffix(sources), ClassFileSuffix)
    ensures StemBySuffix(j + JarSuffix(sources)) == j
  {
    var name := j + JarSuffix(sources);
    assert name[|name| - 5..] == ClassFileSuffix;
    if sources {
      assert name[|name| - |SourceFileSuffix|..] == SourceFileSuffix;
    } else {
      assert SourceFileSuffix == SourcesMarker + ClassFileSuffix;
      EndsWithAppended(j, SourcesMarker, ClassFileSuffix);
    }
    assert name[..|j|] == j;
  }

  /** A name ending with `-sources.jar!` ends with `.jar!` and contains `-sources`. */
  lemma SourcesJarHasMarker(name: string)
    requires EndsWith(name, SourceFileSuffix)
    ensures EndsWith(name, ClassFileSuffix) && Contains(name, SourcesMarker)
  {
    var n := |name|;
    assert name[n - 5..] == name[n - 13..][8..];
    assert name == name[..n - 13] + SourcesMarker + name[n - 5..];
    ContainsConcat(name[..n - 13], SourcesMarker, name[n - 5..]);
  }

  /** Both decoders agree on a name ending with `.jar!` that does not contain `-sources`. */
  lemma DecodersAgreeWithoutMarker(name: string)
    requires EndsWith(name, ClassFileSuffix) && !Contains(name, SourcesMarker)
    ensures DecodeJarNameBySuffix(name) == DecodeJarName(name)
  {
    if EndsWith(name, SourceFileSuffix) {
      SourcesJarHasMarker(name);
    } else {
      assert StemBySuffix(name) == Stem(name);
    }
  }

  /** Both decoders agree on a name ending with `-sources.jar!`. */
  lemma DecodersAgreeOnSourcesJars(name: string)
    requires EndsWith(name, SourceFileSuffix)
    ensures EndsWith(name, ClassFileSuffix)
    ensures DecodeJarNameBySuffix(name) == DecodeJarName(name)
  {
    SourcesJarHasMarker(name);
    assert StemBySuffix(name) == Stem(name);
  }

  /** The corrected decoder reads the misdecoded jar right. */
  lemma SourcesInsideNameDecoded()
    ensures DecodeJarNameBySuffix(ArtifactName(["a"], "test-sources-util", false)) == Success("a:test-sources-util")
  {
    MisdecodedTargetSpelling();
    assert Join(["a"], '/') == "a";
    DecodeArtifactNameBySuffix(["a"], "test-sources-util", false);
  }

  lemma MisdecodedTargetSpelling()
    ensures "a" + ":" + "test-sources-util" == "a:test-sources-util"
    ensures '.' !in "test-sources-util" && '.' !in "a" && "test-sources-util" != ""
    ensures !EndsWith("test-sources-util", SourcesMarker)
  {
  }

  const BloopJarsDirectory := "bloop-jars"

  /**
   * `decodeJarPath`, known only from its unit tests: no target unless some
   * examined component is `bloop-jars`, then the corrected decoder.
   */
  function DecodeJarPath(p: Path): (r: Result<Option<string>, DecodeError>)
    ensures BloopJarsDirectory !in ExaminedNames(p) ==> r == Success(None)
    ensures BloopJarsDirectory in ExaminedNames(p) ==>
      (r == Success(None) <==> forall k :: 0 <= k < |ExaminedNames(p)| ==> !EndsWith(ExaminedNames(p)[k], ClassFileSuffix))
    ensures r != Success(None) ==> var names := ExaminedNames(p);
      BloopJarsDirectory in names
      && (exists k :: 0 <= k < |names| && EndsWith(names[k], ClassFileSuffix)
            && (forall j :: 0 <= j < k ==> !EndsWith(names[j], ClassFileSuffix))
            && r == SomeTarget(DecodeJarNameBySuffix(names[k])))
  {
    if BloopJarsDirectory in ExaminedNames(p) then JarPathToTargetBySuffix(p) else Success(None)
  }

  /** `/tmp/abc` and `/tmp/main.jar!` name no target: neither lies under `bloop-jars`. */
  lemma DecodeJarPathOutsideBloopJars()
    ensures DecodeJarPath(Of("/tmp/abc")) == Success(None)
    ensures DecodeJarPath(Of("/tmp/main.jar!")) == Success(None)
  {
    TmpName("abc");
    TmpName("main.jar!");
    assert "/tmp/abc" == "/tmp/" + "abc";
    assert "/tmp/main.jar!" == "/tmp/" + "main.jar!";
    OutsideBloopJars("abc");
    OutsideBloopJars("main.jar!");
  }

  /** A file `/tmp/<name>` does not lie under `bloop-jars` unless it is called so. */
  lemma OutsideBloopJars(name: string)
    requires name != BloopJarsDirectory
    ensures DecodeJarPath(Path(true, ["tmp", name])) == Success(None)
  {
    var p := Path(true, ["tmp", name]);
    assert Reversed(p.names) == [name, "tmp"];
    assert ExaminedNames(p) == [name, "tmp"];
    assert "tmp" != BloopJarsDirectory;
    assert BloopJarsDirectory !in ExaminedNames(p);
  }

  /** `/tmp/bloop-jars/dir.target.jar!` names `dir:target`. */
  lemma DecodeJarPathInsideBloopJars()
    ensures DecodeJarPath(Of("/tmp/" + "bloop-jars" + "/" + "dir.target.jar!")) == Success(Some("dir:target"))
  {
    var jar := "dir.target.jar!";
    BloopJarPath();
    TmpPath("bloop-jars", jar);
    var p := Path(true, ["tmp", "bloop-jars", jar]);
    assert Reversed(p.names) == [jar, "bloop-jars", "tmp"];
    assert ExaminedNames(p) == [jar, "bloop-jars", "tmp"];
    BloopJarDecoding(jar);
  }

  lemma BloopJarDecoding(jar: string)
    requires jar == "dir.target.jar!"
    ensures EndsWith(jar, ClassFileSuffix) && DecodeJarNameBySuffix(jar) == Success("dir:target")
  {
    BloopJarSpelling();
    JoinOfTwo("dir", "target", '.');
    assert ["dir"] + ["target"] == ["dir", "target"];
    assert Join(["dir"], '/') == "dir";
    DecodeArtifactNameBySuffix(["dir"], "target", false);
  }

  lemma BloopJarSpelling()
    ensures "dir.target.jar!" == "dir" + "." + "target" + JarSuffix(false)
    ensures "dir:target" == "dir" + ":" + "target"
    ensures '.' !in "dir" && '.' !in "target" && !EndsWith("target", SourcesMarker)
  {
  }

  lemma BloopJarPath()
    ensures '/' !in "dir.target.jar!" && '/' !in "bloop-jars"
  {
  }
}
