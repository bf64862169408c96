/**
 * The part of java.nio.file.Path on Unix that the plugin uses: a path is
 * absolute or relative and has a list of name components; `getParent`,
 * `getFileName` and `toString` follow java.nio's Unix rules.
 */
module FilePaths {
  import opened Wrappers
  import opened JavaStrings

  /** A Unix `Path`: whether it starts at the root `/`, and its names from the root down. */
  datatype Path = Path(absolute: bool, names: seq<string>)

  /** The pieces that are not empty, in order. */
  function NonEmpty(xs: seq<string>): (r: seq<string>)
    ensures forall k :: 0 <= k < |r| ==> r[k] != "" && r[k] in xs
  {
    if xs == [] then []
    else (if xs[0] == "" then [] else [xs[0]]) + NonEmpty(xs[1..])
  }

  /** `Paths.get(s)`: a leading `/` makes the path absolute; repeated and trailing separators collapse. */
  function Of(s: string): (p: Path)
    ensures forall k :: 0 <= k < |p.names| ==> p.names[k] != "" && '/' !in p.names[k]
  {
    PiecesHaveNoSeparator(s, '/');
    Path(|s| > 0 && s[0] == '/', NonEmpty(Pieces(s, '/')))
  }

  /** `getParent`: none for the root, the empty path and a single relative name; the root for `/name`. */
  function Parent(p: Path): (r: Option<Path>)
    ensures r.Some? ==> |p.names| > 0 && r.value == Path(p.absolute, p.names[..|p.names| - 1])
    ensures r.None? <==> |p.names| == 0 || (|p.names| == 1 && !p.absolute)
  {
    if |p.names| == 0 || (|p.names| == 1 && !p.absolute) then None
    else Some(Path(p.absolute, p.names[..|p.names| - 1]))
  }

  /** `getFileName`: the last name; none for the root; the empty path is its own file name. */
  function FileName(p: Path): (r: Option<string>)
    ensures r.None? <==> p.absolute && |p.names| == 0
    ensures |p.names| > 0 ==> r == Some(p.names[|p.names| - 1])
  {
    if |p.names| > 0 then Some(p.names[|p.names| - 1])
    else if p.absolute then None
    else Some("")
  }

  /** `toString`: the names joined by `/`, after a `/` when absolute. */
  function ToString(p: Path): (s: string)
    ensures p.absolute ==> |s| > 0 && s[0] == '/'
  {
    (if p.absolute then "/" else "") + Join(p.names, '/')
  }

  /** A path name of the model: not empty and without a separator, as `Paths.get` makes them. */
  predicate ValidNames(names: seq<string>) {
    forall k :: 0 <= k < |names| ==> names[k] != "" && '/' !in names[k]
  }

  lemma {:induction false} NonEmptyKeepsNonEmpty(xs: seq<string>)
    requires forall k :: 0 <= k < |xs| ==> xs[k] != ""
    ensures NonEmpty(xs) == xs
  {
    if xs != [] {
      NonEmptyKeepsNonEmpty(xs[1..]);
    }
  }

  /** `Paths.get(p.toString())` is `p` again. */
  lemma OfToString(p: Path)
    requires ValidNames(p.names)
    ensures Of(ToString(p)) == p
  {
    if p.absolute {
      OfToStringAbsolute(p.names);
    } else {
      OfToStringRelative(p.names);
    }
  }

  lemma OfToStringAbsolute(names: seq<string>)
    requires ValidNames(names)
    ensures Of(ToString(Path(true, names))) == Path(true, names)
  {
    var s := ToString(Path(true, names));
    var xs := [""] + names;
    assert xs[1..] == names;
    if names == [] {
      assert s == Join(["", ""], '/');
      PiecesOfJoin(["", ""], '/');
      assert NonEmpty(["", ""]) == [] by { assert ["", ""][1..] == [""]; assert [""][1..] == []; }
    } else {
      assert s == Join(xs, '/');
      PiecesOfJoin(xs, '/');
      assert NonEmpty(xs) == NonEmpty(names);
      NonEmptyKeepsNonEmpty(names);
    }
  }

  lemma OfToStringRelative(names: seq<string>)
    requires ValidNames(names)
    ensures Of(ToString(Path(false, names))) == Path(false, names)
  {
    var s := ToString(Path(false, names));
    if names == [] {
      assert s == "" && Pieces(s, '/') == [""];
      assert NonEmpty([""]) == [] by { assert [""][1..] == []; }
    } else {
      assert s == Join(names, '/');
      PiecesOfJoin(names, '/');
      NonEmptyKeepsNonEmpty(names);
      assert s[0] == names[0][0] by {
        if |names| > 1 {
          assert s == names[0] + ['/'] + Join(names[1..], '/');
        }
      }
    }
  }

  lemma {:induction false} NonEmptyConcat(xs: seq<string>, ys: seq<string>)
    ensures NonEmpty(xs + ys) == NonEmpty(xs) + NonEmpty(ys)
  {
    if xs == [] {
      assert xs + ys == ys;
    } else {
      assert (xs + ys)[1..] == xs[1..] + ys;
      NonEmptyConcat(xs[1..], ys);
    }
  }

  /** `Paths.get(first, name)`: the two strings joined by `/`, an empty `first` being skipped. */
  function Resolve(first: string, name: string): (p: Path)
    ensures name != "" && '/' !in name ==> p == Path(Of(first).absolute, Of(first).names + [name])
  {
    if name != "" && '/' !in name then
      AppendedName(first, name);
      Of(if first == "" then name else first + "/" + name)
    else
      Of(if first == "" then name else first + "/" + name)
  }

  /** A non-empty name without separators becomes the last component of what `first` denotes. */
  lemma AppendedName(first: string, name: string)
    requires name != "" && '/' !in name
    ensures Of(if first == "" then name else first + "/" + name) == Path(Of(first).absolute, Of(first).names + [name])
  {
    PiecesWithoutSeparator(name, '/');
    assert NonEmpty([name]) == [name] by { assert [name][1..] == []; }
    if first != "" {
      PiecesOfConcat(first, name, '/');
      NonEmptyConcat(Pieces(first, '/'), [name]);
      assert (first + "/" + name)[0] == first[0];
    } else {
      assert Pieces(first, '/') == [""];
      assert NonEmpty([""]) == [] by { assert [""][1..] == []; }
    }
  }
}
