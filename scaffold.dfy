/**
 `create_course`: checks that the `courses` root exists, normalises the id,
 refuses an existing course directory, and builds the manifest of a fresh
 transcription course. The file system is reduced to what the function asks
 of it: whether the working directory is available, whether the root exists,
 and which entries already exist under it.
 */
module Scaffold {
  import opened RustStr
  import opened CourseId

  datatype Option<T> = None | Some(value: T)

  /** A stand-in for the media link a passage may carry; the function builds none, so its fields are not modelled. */
  datatype ExternalLink = YouTube(videoId: string)

  /** A stand-in for the element type of `inlined_passages`; the function builds none, so its fields are not modelled. */
  datatype Passage = Track(shortId: string, externalLink: Option<ExternalLink>)

  /** The transcription generator's configuration. */
  datatype TranscriptionConfig = TranscriptionConfig(
    transcriptionDependencies: seq<string>,
    passageDirectory: string,
    inlinedPassages: seq<Passage>,
    skipSingingLessons: bool,
    skipAdvancedLessons: bool)

  /** The generator kinds of the course library; only transcription is built here. */
  datatype CourseGenerator = Transcription(config: TranscriptionConfig) | OtherGenerator

  /** The manifest fields `create_course` sets; every other field keeps the builder's default. */
  datatype CourseManifest = CourseManifest(id: string, generatorConfig: Option<CourseGenerator>)

  /** What `create_course` can fail with, in the order it checks. */
  datatype ScaffoldError =
    | WorkingDirectoryUnavailable
    | MissingCoursesRoot
    | CourseAlreadyExists(path: string)
    | ManifestBuildFailure
    | SerializationFailure

  datatype Result<T> = Ok(value: T) | Err(error: ScaffoldError)

  /**
   The file system as `create_course` observes it. An entry under the root is
   named by its list of path components (see `Components`), so all spellings
   of one path name the same entry.
   */
  datatype FileSystem = FileSystem(
    workingDirectoryAvailable: bool,
    coursesRootExists: bool,
    entries: set<seq<string>>)

  /**
   The components of a path relative to the root, as the operating system
   resolves them: the pieces between `/` with empty pieces and `.` dropped.
   `..` is kept as an ordinary component.
   */
  function Components(path: string): (r: seq<string>)
    ensures AllNamed(r)
  {
    Proper(Split(path, PathSep))
  }

  /** A piece of a path that names an entry: neither empty nor `.`. */
  predicate Named(piece: string) {
    piece != "" && piece != "."
  }

  /** Every piece names an entry. */
  predicate AllNamed(pieces: seq<string>) {
    forall i :: 0 <= i < |pieces| ==> Named(pieces[i])
  }

  /**
   The pieces that name something, in order: every piece kept is named, when
   every piece is named all of them are kept, and when none is named nothing
   is kept. With `ProperAppend` this fixes the result on every list.
   */
  function Proper(pieces: seq<string>): (r: seq<string>)
    ensures |r| <= |pieces|
    ensures AllNamed(r)
    ensures AllNamed(pieces) ==> r == pieces
    ensures (forall i :: 0 <= i < |pieces| ==> !Named(pieces[i])) ==> r == []
    decreases |pieces|
  {
    if pieces == [] then []
    else if !Named(pieces[0]) then Proper(pieces[1..])
    else [pieces[0]] + Proper(pieces[1..])
  }

  /**
   `root.join(path).exists()` once the root is known to exist: a path with no
   components is the root itself; any other path exists when its entry does.
   */
  predicate Exists(fs: FileSystem, path: string) {
    Components(path) == [] || Components(path) in fs.entries
  }

  /** A transcription generator with nothing in it yet: no dependencies, no passages, no flags set. */
  predicate IsEmptyTranscription(g: Option<CourseGenerator>) {
    && g.Some? && g.value.Transcription?
    && g.value.config.transcriptionDependencies == []
    && g.value.config.passageDirectory == ""
    && g.value.config.inlinedPassages == []
    && !g.value.config.skipSingingLessons
    && !g.value.config.skipAdvancedLessons
  }

  /** The manifest `create_course` builds for a canonical id: that id and an empty transcription generator. */
  function NewManifest(courseId: string): (m: CourseManifest)
    ensures m.id == courseId
    ensures IsEmptyTranscription(m.generatorConfig)
  {
    CourseManifest(
      courseId,
      Some(Transcription(TranscriptionConfig(
        transcriptionDependencies := [],
        passageDirectory := "",
        inlinedPassages := [],
        skipSingingLessons := false,
        skipAdvancedLessons := false))))
  }

  /**
   `create_course(id)`. On success the built manifest is returned (the
   source serialises it and then drops it: nothing is written). Building and
   serialising are library calls whose outcome is given by `buildSucceeds`
   and `serializeSucceeds`.
   */
  function CreateCourse(id: string, fs: FileSystem, buildSucceeds: bool, serializeSucceeds: bool)
    : (r: Result<CourseManifest>)
    ensures !fs.workingDirectoryAvailable <==> r == Err(WorkingDirectoryUnavailable)
    ensures fs.workingDirectoryAvailable && !fs.coursesRootExists <==> r == Err(MissingCoursesRoot)
    ensures r.Err? && r.error.CourseAlreadyExists? <==>
      fs.workingDirectoryAvailable && fs.coursesRootExists && Exists(fs, RelativePath(id))
    ensures r.Err? && r.error.CourseAlreadyExists? ==> r.error.path == RelativePath(id)
    ensures r == Err(ManifestBuildFailure) <==>
      fs.workingDirectoryAvailable && fs.coursesRootExists && !Exists(fs, RelativePath(id))
      && !buildSucceeds
    ensures r == Err(SerializationFailure) <==>
      fs.workingDirectoryAvailable && fs.coursesRootExists && !Exists(fs, RelativePath(id))
      && buildSucceeds && !serializeSucceeds
    ensures r.Ok? ==> StartsWith(r.value.id, Prefix) && r.value.id == CanonicalId(id)
    ensures r.Ok? ==> RelativePath(r.value.id) == RelativePath(id)
    ensures r.Ok? ==> IsEmptyTranscription(r.value.generatorConfig)
  {
    if !fs.workingDirectoryAvailable then Err(WorkingDirectoryUnavailable)
    else if !fs.coursesRootExists then Err(MissingCoursesRoot)
    else
      var directory := RelativePath(id);
      if Exists(fs, directory) then Err(CourseAlreadyExists(directory))
      else
        var manifest := NewManifest(CanonicalId(id));
        if !buildSucceeds then Err(ManifestBuildFailure)
        else if !serializeSucceeds then Err(SerializationFailure)
        else
          NormaliseIdempotent(id);
          Ok(manifest)
  }

  /** Passing the canonical id instead of the raw one changes nothing about the outcome. */
  lemma CanonicalInputSameOutcome(id: string, fs: FileSystem, b: bool, s: bool)
    ensures CreateCourse(CanonicalId(id), fs, b, s) == CreateCourse(id, fs, b, s)
  {
    NormaliseIdempotent(id);
  }

  /** Once the directory exists (say, created by hand), creating the course is refused. */
  lemma ExistingDirectoryRefused(id: string, fs: FileSystem, b: bool, s: bool)
    requires fs.workingDirectoryAvailable && fs.coursesRootExists
    ensures CreateCourse(id, fs.(entries := fs.entries + {Components(RelativePath(id))}), b, s)
      == Err(CourseAlreadyExists(RelativePath(id)))
  {
  }

  /** Dropping the unnamed pieces of a concatenation drops them from each half. */
  lemma {:induction false} ProperAppend(xs: seq<string>, ys: seq<string>)
    ensures Proper(xs + ys) == Proper(xs) + Proper(ys)
    decreases |xs|
  {
    if xs != [] {
      var zs := xs + ys;
      assert zs[0] == xs[0] && zs[1..] == xs[1..] + ys;
      ProperAppend(xs[1..], ys);
      if !Named(xs[0]) {
        assert Proper(zs) == Proper(xs[1..] + ys);
      } else {
        assert Proper(zs) == [xs[0]] + Proper(xs[1..] + ys);
      }
    } else {
      assert xs + ys == ys;
    }
  }

  /** A trailing `/` adds an empty last piece. */
  lemma {:induction false} SplitTrailingSep(p: string)
    ensures Split(p + PathSep, PathSep) == Split(p, PathSep) + [""]
    decreases |p|
  {
    if StartsWith(p, PathSep) {
      assert (p + PathSep)[1..] == p[1..] + PathSep;
      SplitTrailingSep(p[1..]);
    } else if p == [] {
      assert Split("", PathSep) == [""];
      assert PathSep[1..] == "";
    } else {
      assert (p + PathSep)[1..] == p[1..] + PathSep;
      assert !StartsWith(p + PathSep, PathSep);
      SplitTrailingSep(p[1..]);
    }
  }

  /** A trailing `/` names the same entry: `a/` and `a` are one directory. */
  lemma TrailingSepSameEntry(p: string)
    ensures Components(p + PathSep) == Components(p)
  {
    SplitTrailingSep(p);
    ProperAppend(Split(p, PathSep), [""]);
    assert Proper([""]) == [];
  }

  /**
   An id whose path is empty, such as `""` or the bare prefix, names the
   root itself, `courses/`. The model takes the root to be a directory, so
   that entry exists once the root check has passed and the id is refused as
   an existing course.
   */
  lemma EmptyPathRefused(id: string, fs: FileSystem, b: bool, s: bool)
    requires fs.workingDirectoryAvailable && fs.coursesRootExists
    requires RelativePath(id) == ""
    ensures CreateCourse(id, fs, b, s) == Err(CourseAlreadyExists(""))
  {
    assert Split("", PathSep) == [""];
    assert Proper([""]) == [];
  }

  /** The empty id and the bare prefix both map to the empty path. */
  lemma BareIdsMapToRoot()
    ensures RelativePath("") == ""
    ensures RelativePath(Prefix) == ""
  {
    assert Unprefixed(Prefix) == "";
  }

  /** `a::` maps to `a/`, the same directory as `a`: it is refused once `a` exists. */
  lemma TrailingNamespaceSepRefused(fs: FileSystem, b: bool, s: bool)
    requires fs.workingDirectoryAvailable && fs.coursesRootExists && ["a"] in fs.entries
    ensures CreateCourse("a::", fs, b, s) == Err(CourseAlreadyExists("a/"))
  {
    assert Unprefixed("a::") == "a::";
    assert "a::"[1..] == NamespaceSep && NamespaceSep[2..] == "";
    assert RelativePath("a::") == "a" + PathSep;
    TrailingSepSameEntry("a");
    assert Split("a", PathSep) == ["a"] by {
      assert "a"[1..] == "";
      assert Split("", PathSep) == [""];
      assert ["a"[0]] + "" == "a";
    }
    assert Components("a") == ["a"];
  }

  /** A piece without `/` followed by `/` splits off as the first piece. */
  lemma {:induction false} SplitAfterPiece(x: string, y: string)
    requires '/' !in x
    ensures Split(x + PathSep + y, PathSep) == [x] + Split(y, PathSep)
    decreases |x|
  {
    if x == [] {
      assert x + PathSep + y == PathSep + y;
      assert (PathSep + y)[1..] == y;
    } else {
      var s := x + PathSep + y;
      assert s[0] == x[0] && s[1..] == x[1..] + PathSep + y;
      assert !StartsWith(s, PathSep);
      SplitAfterPiece(x[1..], y);
      assert [x[0]] + x[1..] == x;
    }
  }

  /** A string without `/` is a single piece. */
  lemma {:induction false} SplitWithoutSep(x: string)
    requires '/' !in x
    ensures Split(x, PathSep) == [x]
    decreases |x|
  {
    if x != [] {
      assert x[0] in x && x[0] != '/';
      assert !StartsWith(x, PathSep);
      SplitWithoutSep(x[1..]);
      assert [x[0]] + x[1..] == x;
    }
  }

  /** Pieces without `/` are recovered by splitting their `/`-join. */
  lemma {:induction false} SplitJoinPath(xs: seq<string>)
    requires |xs| > 0
    requires forall i :: 0 <= i < |xs| ==> '/' !in xs[i]
    ensures Split(Join(xs, PathSep), PathSep) == xs
    decreases |xs|
  {
    if |xs| == 1 {
      SplitWithoutSep(xs[0]);
    } else {
      SplitAfterPiece(xs[0], Join(xs[1..], PathSep));
      SplitJoinPath(xs[1..]);
      assert [xs[0]] + xs[1..] == xs;
    }
  }

  /**
   Components undoes joining with `/`: names that are not empty, not `.` and
   free of `/` are exactly the components of the path they spell.
   */
  lemma ComponentsOfJoin(xs: seq<string>)
    requires AllNamed(xs)
    requires forall i :: 0 <= i < |xs| ==> '/' !in xs[i]
    ensures Components(Join(xs, PathSep)) == xs
  {
    if xs == [] {
      assert Split("", PathSep) == [""];
      assert Proper([""]) == [];
    } else {
      SplitJoinPath(xs);
    }
  }

  /**
   `a::::b` becomes the path `a//b`, whose components are `a` and `b`: the
   empty piece between the two `/` is dropped and the named pieces are kept
   in order.
   */
  lemma DoubledSepSameEntry()
    ensures RelativePath("a::::b") == "a//b"
    ensures Components("a//b") == ["a", "b"]
  {
    DoubledSepPath();
    DoubledSepComponents();
  }

  /** The path of `a::::b`: each of the two `::` becomes `/`. */
  lemma DoubledSepPath()
    ensures RelativePath("a::::b") == "a//b"
  {
    var id := "a::::b";
    assert !StartsWith(id, Prefix);
    assert id[1..] == "::::b" && id[1..][2..] == "::b" && id[1..][2..][2..] == "b";
    assert Replace("b", NamespaceSep, PathSep) == "b";
    assert Replace("::b", NamespaceSep, PathSep) == "/b";
    assert Replace("::::b", NamespaceSep, PathSep) == "//b";
  }

  /** The components of `a//b`: the empty middle piece is dropped. */
  lemma DoubledSepComponents()
    ensures Components("a//b") == ["a", "b"]
  {
    DoubledSepSplit();
    ProperKeepsNamedInOrder();
  }

  /** `a//b` splits into `a`, an empty piece and `b`. */
  lemma DoubledSepSplit()
    ensures Split("a//b", PathSep) == ["a", "", "b"]
  {
    SplitWithoutSep("b");
    SplitAfterPiece("", "b");
    SplitAfterPiece("a", "/b");
    assert "a" + PathSep + "/b" == "a//b";
    assert "" + PathSep + "b" == "/b";
  }

  /** An unnamed piece between named ones is dropped; the named ones stay in order. */
  lemma ProperKeepsNamedInOrder()
    ensures Proper(["a", "", "b"]) == ["a", "b"]
  {
    assert ["a", "", "b"] == ["a"] + ([""] + ["b"]);
    ProperAppend([""], ["b"]);
    ProperAppend(["a"], ["", "b"]);
    assert Proper([""]) == [];
  }
}
