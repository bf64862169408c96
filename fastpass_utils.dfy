/**
 * The pure parts of `bsp/FastpassUtils`: the `fastpass` command lines built
 * around the coursier launcher, the environment and working directory they
 * run in, the reading of an exit code and of the `info` output, the file
 * whose targets are listed for a directory, and `toStream`.
 */
module FastpassUtils {
  import opened Wrappers
  import opened JavaStrings
  import opened FilePaths

  /** `PantsBspData`: the bsp project directory and the path of the pants workspace root. */
  datatype BspData = BspData(bspPath: Path, pantsRoot: string)

  /** An IntelliJ `VirtualFile`, as far as `availableTargetsIn` reads it. */
  datatype VirtualFile = VirtualFile(path: string, isDirectory: bool)

  datatype UtilsError =
    | NullPointer               // `toString` of a missing file name or parent
    | AmendFailed(stderr: string) // the `RuntimeException` of a failed `amend`

  /** What `fastpassProcess` starts: the command, `FASTPASS_HOME` and the working directory. */
  datatype Invocation = Invocation(command: seq<string>, fastpassHome: string, workingDirectory: string)

  const CoursierPart: seq<string> := [
    "coursier", "launch", "org.scalameta:metals_2.12:0.8.5-SNAPSHOT", "-r", "ivy2local",
    "--main", "scala.meta.internal.pantsbuild.BloopPants", "--"
  ]

  /** `makeFastpassCommand`: the launcher prefix, then the given part in order. */
  function MakeFastpassCommand(part: seq<string>): (command: seq<string>)
    ensures |command| == |CoursierPart| + |part|
    ensures command[..|CoursierPart|] == CoursierPart && command[|CoursierPart|..] == part
  {
    CoursierPart + part
  }

  /** Different parts give different commands: the part is recoverable from the command. */
  lemma CommandDeterminesPart(a: seq<string>, b: seq<string>)
    requires MakeFastpassCommand(a) == MakeFastpassCommand(b)
    ensures a == b
  {
    assert a == MakeFastpassCommand(a)[|CoursierPart|..];
  }

  /** `getBspPath().getFileName().toString()`: the bsp directory's own name. */
  function BspFileName(data: BspData): (r: Result<string, UtilsError>)
    ensures r.Failure? <==> data.bspPath.absolute && |data.bspPath.names| == 0
    ensures r.Failure? ==> r.error == NullPointer
  {
    match FileName(data.bspPath)
    case None => Failure(NullPointer)
    case Some(name) => Success(name)
  }

  /** `FASTPASS_HOME`: `getBspPath().getParent().toString()`. */
  function FastpassHome(data: BspData): (r: Result<string, UtilsError>)
    ensures r.Failure? <==> Parent(data.bspPath).None?
    ensures r.Failure? ==> r.error == NullPointer
  {
    match Parent(data.bspPath)
    case None => Failure(NullPointer)
    case Some(parent) => Success(ToString(parent))
  }

  /** The working directory: `Paths.get(getPantsRoot().getPath())`. */
  function WorkingDirectory(data: BspData): (r: string)
    ensures Of(r) == Of(data.pantsRoot)
  {
    OfToString(Of(data.pantsRoot));
    ToString(Of(data.pantsRoot))
  }

  /** `amendAll`'s part: `amend`, the bsp directory's name, `--targets-list` and the targets joined by commas. */
  function AmendPart(data: BspData, targets: seq<string>): (r: Result<seq<string>, UtilsError>)
    ensures r.Success? <==> BspFileName(data).Success?
    ensures r.Success? ==> |r.value| == 4 && r.value[1] == BspFileName(data).value
  {
    match BspFileName(data)
    case Failure(e) => Failure(e)
    case Success(name) => Success(["amend", name, "--targets-list", Join(targets, ',')])
  }

  /** `selectedTargets`'s part: `info` and the bsp directory's name. */
  function InfoPart(data: BspData): (r: Result<seq<string>, UtilsError>)
    ensures r.Success? <==> BspFileName(data).Success?
    ensures r.Success? ==> r.value == ["info", BspFileName(data).value]
  {
    match BspFileName(data)
    case Failure(e) => Failure(e)
    case Success(name) => Success(["info", name])
  }

  /** The process `fastpassProcess` starts for a part, in the bsp directory's parent and the pants root. */
  function Launch(data: BspData, part: Result<seq<string>, UtilsError>): (r: Result<Invocation, UtilsError>)
    ensures r.Success? <==> part.Success? && FastpassHome(data).Success?
  {
    match part
    case Failure(e) => Failure(e)
    case Success(p) =>
      match FastpassHome(data)
      case Failure(e) => Failure(e)
      case Success(home) => Success(Invocation(MakeFastpassCommand(p), home, WorkingDirectory(data)))
  }

  /**
   * The `amend` process of `amendAll`: only a bsp directory with a parent has
   * one; it runs with `FASTPASS_HOME` set to that parent, in the pants root,
   * and passes the directory's own name and the comma-joined targets.
   */
  function AmendInvocation(data: BspData, targets: seq<string>): (r: Result<Invocation, UtilsError>)
    ensures r.Success? <==> Parent(data.bspPath).Some?
    ensures r.Failure? ==> r.error == NullPointer
    ensures r.Success? ==> var p := data.bspPath;
      && r.value.command == MakeFastpassCommand(["amend", p.names[|p.names| - 1], "--targets-list", Join(targets, ',')])
      && r.value.fastpassHome == ToString(Path(p.absolute, p.names[..|p.names| - 1]))
      && Of(r.value.workingDirectory) == Of(data.pantsRoot)
  {
    Launch(data, AmendPart(data, targets))
  }

  /** The `info` process of `selectedTargets`: like the `amend` process, with the part `info <name>`. */
  function InfoInvocation(data: BspData): (r: Result<Invocation, UtilsError>)
    ensures r.Success? <==> Parent(data.bspPath).Some?
    ensures r.Failure? ==> r.error == NullPointer
    ensures r.Success? ==> var p := data.bspPath;
      && r.value.command == MakeFastpassCommand(["info", p.names[|p.names| - 1]])
      && r.value.fastpassHome == ToString(Path(p.absolute, p.names[..|p.names| - 1]))
      && Of(r.value.workingDirectory) == Of(data.pantsRoot)
  {
    Launch(data, InfoPart(data))
  }

  /**
   * For a bsp directory with a parent, the `amend` process runs with
   * `FASTPASS_HOME` naming that parent, in the pants root, and passes the
   * directory's own name and the targets; the comma-separated list splits back
   * into the targets when none of them is empty or holds a comma.
   */
  lemma AmendInvocationShape(data: BspData, targets: seq<string>)
    requires ValidNames(data.bspPath.names) && |data.bspPath.names| >= 1
    requires data.bspPath.absolute || |data.bspPath.names| >= 2
    ensures AmendInvocation(data, targets).Success?
    ensures var inv := AmendInvocation(data, targets).value;
      && inv.command[..|CoursierPart|] == CoursierPart
      && inv.command[|CoursierPart|..|CoursierPart| + 3] == ["amend", data.bspPath.names[|data.bspPath.names| - 1], "--targets-list"]
      && Of(inv.fastpassHome) == Path(data.bspPath.absolute, data.bspPath.names[..|data.bspPath.names| - 1])
      && Of(inv.workingDirectory) == Of(data.pantsRoot)
      && ((|targets| >= 1 && forall k :: 0 <= k < |targets| ==> targets[k] != "" && ',' !in targets[k]) ==>
            Split(inv.command[|CoursierPart| + 3], ',') == targets)
  {
    var p := data.bspPath;
    var parent := Path(p.absolute, p.names[..|p.names| - 1]);
    var part := ["amend", p.names[|p.names| - 1], "--targets-list", Join(targets, ',')];
    assert Parent(p).Some?;
    var inv := AmendInvocation(data, targets).value;
    assert inv.command == MakeFastpassCommand(part);
    assert inv.command[|CoursierPart|..] == part;
    assert inv.command[|CoursierPart|..|CoursierPart| + 3] == part[..3];
    assert ValidNames(parent.names);
    OfToString(parent);
    if |targets| >= 1 && forall k :: 0 <= k < |targets| ==> targets[k] != "" && ',' !in targets[k] {
      SplitOfJoin(targets, ',');
    }
  }

  /** The `info` process runs in the same places as the `amend` process. */
  lemma InfoRunsWhereAmendRuns(data: BspData, targets: seq<string>)
    ensures InfoInvocation(data).Success? <==> AmendInvocation(data, targets).Success?
    ensures InfoInvocation(data).Success? ==>
      && InfoInvocation(data).value.fastpassHome == AmendInvocation(data, targets).value.fastpassHome
      && InfoInvocation(data).value.workingDirectory == AmendInvocation(data, targets).value.workingDirectory
      && InfoInvocation(data).value.command[|CoursierPart| + 1] == AmendInvocation(data, targets).value.command[|CoursierPart| + 1]
  {
  }

  /** `amendAll` after `waitFor`: a zero exit returns normally, any other raises with the error output. */
  function AmendOutcome(exitValue: int, stderr: string): (r: Result<(), UtilsError>)
    ensures r.Success? <==> exitValue == 0
    ensures r.Failure? ==> r.error == AmendFailed(stderr)
  {
    if exitValue != 0 then Failure(AmendFailed(stderr)) else Success(())
  }

  /** `selectedTargets`: no targets for empty output, otherwise the set of its lines. */
  function SelectedTargets(stdout: string): (r: set<string>)
    ensures stdout == "" ==> r == {}
    ensures forall t :: t in r ==> '\n' !in t
    ensures stdout != "" && '\n' !in stdout ==> r == {stdout}
  {
    if stdout == "" then {} else set t | t in Split(stdout, '\n')
  }

  /** Targets printed one per line are read back as the set of those targets. */
  lemma SelectedTargetsOfLines(lines: seq<string>)
    requires forall k :: 0 <= k < |lines| ==> lines[k] != "" && '\n' !in lines[k]
    ensures SelectedTargets(Join(lines, '\n')) == (set t | t in lines)
  {
    if |lines| >= 1 {
      SplitOfJoin(lines, '\n');
      assert Join(lines, '\n') != "" by {
        if |lines| >= 2 {
          assert Join(lines, '\n') == lines[0] + ['\n'] + Join(lines[1..], '\n');
        }
      }
    }
  }

  /** A final newline after the last target changes nothing. */
  lemma SelectedTargetsIgnoresFinalNewline(lines: seq<string>)
    requires forall k :: 0 <= k < |lines| ==> lines[k] != "" && '\n' !in lines[k]
    ensures SelectedTargets(Join(lines, '\n') + "\n") == (set t | t in lines)
  {
    var s := Join(lines, '\n') + "\n";
    if lines == [] {
      assert Pieces(s, '\n') == ["", ""];
      assert DropTrailingEmpty(["", ""]) == [] by {
        assert ["", ""][..1] == [""];
        assert [""][..0] == [];
      }
    } else {
      SplitDropsFinalSeparator(lines, '\n');
      assert s != "";
    }
  }

  /** Lines in another order, or repeated, are the same selection. */
  lemma SelectedTargetsIgnoresOrder(a: seq<string>, b: seq<string>)
    requires forall k :: 0 <= k < |a| ==> a[k] != "" && '\n' !in a[k]
    requires forall k :: 0 <= k < |b| ==> b[k] != "" && '\n' !in b[k]
    requires (set t | t in a) == (set t | t in b)
    ensures SelectedTargets(Join(a, '\n')) == SelectedTargets(Join(b, '\n'))
  {
    SelectedTargetsOfLines(a);
    SelectedTargetsOfLines(b);
  }

  const BuildFileName := "BUILD"

  /** `availableTargetsIn`'s argument: `<dir>/BUILD` for a directory, a file's own path otherwise. */
  function QueryPath(file: VirtualFile): (r: string)
    ensures !file.isDirectory ==> r == file.path
    ensures file.isDirectory ==> Of(r) == Path(Of(file.path).absolute, Of(file.path).names + [BuildFileName])
  {
    if file.isDirectory then
      OfToString(Resolve(file.path, BuildFileName));
      ToString(Resolve(file.path, BuildFileName))
    else
      file.path
  }

  /** For a directory, the queried file is its `BUILD` file: named `BUILD`, whose parent is the directory. */
  lemma QueryPathOfDirectory(file: VirtualFile)
    requires file.isDirectory
    ensures FileName(Of(QueryPath(file))) == Some(BuildFileName)
    ensures Parent(Of(QueryPath(file))).Some? <==> Of(file.path).absolute || |Of(file.path).names| > 0
    ensures Parent(Of(QueryPath(file))).Some? ==> Parent(Of(QueryPath(file))).value == Of(file.path)
  {
    var names := Of(file.path).names + [BuildFileName];
    assert names[..|names| - 1] == Of(file.path).names;
  }

  /** `toStream`: one element for a present value, none for an absent one. */
  function ToStream<T>(o: Option<T>): (r: seq<T>)
    ensures |r| <= 1
    ensures r == [] <==> o.None?
  {
    if o.Some? then [o.value] else []
  }

  /** `findFirst` of a stream. */
  function FindFirst<T>(s: seq<T>): (r: Option<T>)
    ensures r.None? <==> s == []
  {
    if s == [] then None else Some(s[0])
  }

  /** `findFirst` undoes `toStream`, and a stream of at most one element is the stream of its `findFirst`. */
  lemma ToStreamRoundTrip<T>(o: Option<T>, s: seq<T>)
    requires |s| <= 1
    ensures FindFirst(ToStream(o)) == o
    ensures ToStream(FindFirst(s)) == s
  {
  }
}
