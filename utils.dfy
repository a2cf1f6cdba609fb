/**
 * The path resolver of src/utils.rs (`get_file_path`) over an abstract
 * filesystem.
 *
 * A path is the sequence of its components, as Rust's `Path::components`
 * yields them for an absolute path: the separators, empty segments and `.`
 * segments are gone. `PathBuf::push` of a relative path is concatenation of
 * component sequences and `Path::starts_with` is the sequence prefix `<=`.
 */
module Paths {
  import opened Bytes

  /** Largest request the handler reads, in bytes. */
  const MAX_REQUEST_SIZE: nat := 8192

  /** Largest file the resolver lets through, in bytes (10 MiB). */
  const MAX_FILE_SIZE: nat := 10 * 1024 * 1024

  const INDEX_FILE: string := "index.html"

  type Segment = string
  type Path = seq<Segment>

  /** The kinds of `std::io::Error` the resolver produces. */
  datatype ErrorKind = NotFound | PermissionDenied | Other

  datatype Result<T> = Ok(value: T) | Err(kind: ErrorKind)

  /**
   * What the resolver and the handler learn from the filesystem. A path
   * missing from a map is one for which the corresponding call fails.
   *   root       the outcome of `fs::canonicalize("www")`
   *   canonical  `fs::canonicalize`: a path to its canonical form
   *   size       `fs::metadata(..).len()`
   *   contents   `fs::read`
   */
  datatype FileSystem = FileSystem(
    root: Result<Path>,
    canonical: map<Path, Path>,
    size: map<Path, nat>,
    contents: map<Path, seq<byte>>)

  /** `s` holds the two-character substring `[a, b]`. */
  predicate HasPair(s: string, a: char, b: char) {
    exists i :: 0 <= i < |s| - 1 && s[i] == a && s[i + 1] == b
  }

  /** The pre-filter: a request path containing `..`, `//` or a backslash. */
  predicate Suspicious(requestPath: string) {
    HasPair(requestPath, '.', '.') || HasPair(requestPath, '/', '/') || '\\' in requestPath
  }

  /** `str::trim_start_matches('/')`: every leading slash removed. */
  function TrimStartSlashes(s: string): (r: string)
    ensures |r| <= |s| && r == s[|s| - |r|..]
    ensures forall i :: 0 <= i < |s| - |r| ==> s[i] == '/'
    ensures r == "" || r[0] != '/'
  {
    if s != "" && s[0] == '/' then TrimStartSlashes(s[1..]) else s
  }

  /** The components of a relative path: its `/`-separated segments other than empty ones and `.`. */
  function Components(s: string): (cs: Path)
    ensures forall k :: 0 <= k < |cs| ==> cs[k] != "" && cs[k] != "." && '/' !in cs[k]
    decreases |s|
  {
    var i := IndexOf(s, '/');
    var first := s[..i];
    var tail := if i == |s| then [] else Components(s[i + 1..]);
    if first == "" || first == "." then tail else [first] + tail
  }

  /**
   * `get_file_path(request_path)`.
   *
   * The contract is the confinement guarantee: a success never comes from a
   * path the pre-filter flags, and a success for a non-empty path is a file
   * whose canonical form lies, component by component, under the canonical
   * root and whose size (when its metadata can be read) is within the cap.
   */
  function Resolve(fs: FileSystem, requestPath: string): (r: Result<Path>)
    ensures r.Ok? ==> !Suspicious(requestPath) && fs.root.Ok?
    ensures r.Ok? && TrimStartSlashes(requestPath) != "" ==>
      && r.value in fs.canonical
      && fs.root.value <= fs.canonical[r.value]
      && (r.value in fs.size ==> fs.size[r.value] <= MAX_FILE_SIZE)
  {
    if Suspicious(requestPath) then Err(PermissionDenied)
    else match fs.root
      case Err(k) => Err(k)
      case Ok(base) =>
        var clean := TrimStartSlashes(requestPath);
        if clean == "" then Ok(base + [INDEX_FILE])
        else
          var full := base + Components(clean);
          if full !in fs.canonical then Err(NotFound)
          else if !(base <= fs.canonical[full]) then Err(PermissionDenied)
          else if full in fs.size && fs.size[full] > MAX_FILE_SIZE then Err(Other)
          else Ok(full)
  }

  /** The path a non-empty request names: the canonical root with the request's components pushed. */
  function Target(base: Path, requestPath: string): Path {
    base + Components(TrimStartSlashes(requestPath))
  }

  // ---------------------------------------------------------------------------
  // Properties of the resolver

  /**
   * The pre-filter rejects with PermissionDenied before the filesystem is
   * consulted: the outcome is the same on every filesystem.
   */
  lemma PreFilterRejects(fs1: FileSystem, fs2: FileSystem, requestPath: string)
    requires Suspicious(requestPath)
    ensures Resolve(fs1, requestPath) == Resolve(fs2, requestPath) == Err(PermissionDenied)
  {
  }

  /**
   * A path that is empty once its leading slashes are gone names the
   * canonical root's `index.html`, with no existence, containment or size
   * check.
   */
  lemma EmptyPathIsIndex(fs: FileSystem, requestPath: string)
    requires fs.root.Ok? && !Suspicious(requestPath)
    requires TrimStartSlashes(requestPath) == ""
    ensures Resolve(fs, requestPath) == Ok(fs.root.value + [INDEX_FILE])
  {
  }

  /** `/` and the empty path both resolve to the root's `index.html`. */
  lemma RootRequestsAreIndex(fs: FileSystem)
    requires fs.root.Ok?
    ensures Resolve(fs, "/") == Ok(fs.root.value + [INDEX_FILE])
    ensures Resolve(fs, "") == Ok(fs.root.value + [INDEX_FILE])
  {
    assert "/"[1..] == "";
    EmptyPathIsIndex(fs, "/");
    EmptyPathIsIndex(fs, "");
  }

  /** A target that cannot be canonicalized (it does not exist) yields NotFound. */
  lemma UncanonicalizableIsNotFound(fs: FileSystem, requestPath: string)
    requires fs.root.Ok? && !Suspicious(requestPath)
    requires TrimStartSlashes(requestPath) != ""
    requires Target(fs.root.value, requestPath) !in fs.canonical
    ensures Resolve(fs, requestPath) == Err(NotFound)
  {
  }

  /** A target whose canonical form does not have the canonical root as a component prefix is refused. */
  lemma EscapeIsDenied(fs: FileSystem, requestPath: string)
    requires fs.root.Ok? && !Suspicious(requestPath)
    requires TrimStartSlashes(requestPath) != ""
    requires Target(fs.root.value, requestPath) in fs.canonical
    requires !(fs.root.value <= fs.canonical[Target(fs.root.value, requestPath)])
    ensures Resolve(fs, requestPath) == Err(PermissionDenied)
  {
  }

  /**
   * Containment compares components, not text: with the root at
   * `<parent>/www`, a file that canonicalizes into the sibling
   * `<parent>/www-evil` is refused, although `<parent>/www` is a string
   * prefix of `<parent>/www-evil/<name>`.
   */
  lemma SiblingIsNotInside(fs: FileSystem, parent: Path, dir: Segment, suffix: string, name: Segment)
    requires fs.root == Ok(parent + [dir]) && suffix != ""
    requires name != "" && name != "." && '/' !in name && !Suspicious("/" + name)
    requires parent + [dir, name] in fs.canonical
    requires fs.canonical[parent + [dir, name]] == parent + [dir + suffix, name]
    ensures Resolve(fs, "/" + name) == Err(PermissionDenied)
  {
    var base, request := parent + [dir], "/" + name;
    assert TrimStartSlashes(request) != "" && Target(base, request) == parent + [dir, name] by {
      SingleComponentTarget(base, name);
      assert base + [name] == parent + [dir, name];
    }
    assert !(base <= parent + [dir + suffix, name]) by {
      var escaped := parent + [dir + suffix, name];
      assert |dir + suffix| != |dir|;
      assert escaped[|parent|] != base[|parent|];
    }
    EscapeIsDenied(fs, request);
  }

  /** A request for `/<name>` with a single-component name targets that component under the root. */
  lemma SingleComponentTarget(base: Path, name: Segment)
    requires name != "" && name != "." && '/' !in name
    ensures TrimStartSlashes("/" + name) == name
    ensures Target(base, "/" + name) == base + [name]
  {
    assert ("/" + name)[1..] == name;
    assert name[0] in name;
    ComponentsOfName(name);
  }

  /** A relative path with no separator is a single component, unless it is `.`. */
  lemma ComponentsOfName(name: string)
    requires name != "" && name != "." && '/' !in name
    ensures Components(name) == [name]
  {
    assert name[..|name|] == name;
  }

  /** The empty relative path and `.` add no component. */
  lemma NoComponents()
    ensures Components("") == [] && Components(".") == []
  {
    assert "."[..1] == ".";
  }

  /**
   * Components of a joined path: the components of `a` followed by those
   * of `b`. With `NoComponents` and `ComponentsOfName` this fixes
   * `Components` on every text: the `/`-separated segments in order, with
   * the empty ones and `.` left out.
   */
  lemma {:induction false} ComponentsOfJoin(a: string, b: string)
    ensures Components(a + "/" + b) == Components(a) + Components(b)
    decreases |a|
  {
    var i := IndexOf(a, '/');
    if i == |a| {
      assert a == a[..i];
      ComponentsAtSeparator(a, b);
      assert Components(a) == (if a == "" || a == "." then [] else [a]);
    } else {
      var first, rest := a[..i], a[i + 1..];
      SplitAtElement(a, i);
      assert a == first + "/" + rest;
      ComponentsOfJoin(rest, b);
      JoinAfterSegment(first, rest, b);
    }
  }

  /** The inductive step of `ComponentsOfJoin`: one more segment in front. */
  lemma JoinAfterSegment(first: string, rest: string, b: string)
    requires '/' !in first
    requires Components(rest + "/" + b) == Components(rest) + Components(b)
    ensures Components(first + "/" + rest + "/" + b) == Components(first + "/" + rest) + Components(b)
  {
    var head: Path := if first == "" || first == "." then [] else [first];
    Regroup(first, "/", rest, b);
    ComponentsAtSeparator(first, rest + "/" + b);
    ComponentsAtSeparator(first, rest);
    Associative(head, Components(rest), Components(b));
  }

  lemma Associative<T>(x: seq<T>, y: seq<T>, z: seq<T>)
    ensures x + (y + z) == (x + y) + z
  {
  }

  lemma SplitAtElement<T>(s: seq<T>, i: nat)
    requires i < |s|
    ensures s == s[..i] + [s[i]] + s[i + 1..]
  {
  }

  lemma Regroup<T>(x: seq<T>, sep: seq<T>, z: seq<T>, b: seq<T>)
    ensures (x + sep + z) + sep + b == x + sep + (z + sep + b)
  {
  }

  /** Splitting at the first separator: the first segment (unless empty or `.`), then the rest's components. */
  lemma ComponentsAtSeparator(first: string, rest: string)
    requires '/' !in first
    ensures Components(first + "/" + rest) ==
      (if first == "" || first == "." then [] else [first]) + Components(rest)
  {
    var s := first + "/" + rest;
    IndexOfSeparator(first, '/', rest);
    assert s[..|first|] == first && s[|first| + 1..] == rest;
  }

  /**
   * The size cap: a contained file larger than 10 MiB yields kind Other,
   * one of exactly 10 MiB is accepted, and so is a file whose metadata
   * cannot be read.
   */
  lemma SizeCap(fs: FileSystem, requestPath: string)
    requires fs.root.Ok? && !Suspicious(requestPath)
    requires TrimStartSlashes(requestPath) != ""
    requires Target(fs.root.value, requestPath) in fs.canonical
    requires fs.root.value <= fs.canonical[Target(fs.root.value, requestPath)]
    ensures var full := Target(fs.root.value, requestPath);
      Resolve(fs, requestPath) ==
        if full in fs.size && fs.size[full] > MAX_FILE_SIZE then Err(Other) else Ok(full)
    ensures var full := Target(fs.root.value, requestPath);
      full in fs.size && fs.size[full] == 10 * 1024 * 1024 ==> Resolve(fs, requestPath) == Ok(full)
  {
  }

  /**
   * When the resolver succeeds: for a non-empty path it returns the joined
   * path (not its canonical form), and it succeeds exactly when the target
   * canonicalizes inside the root and is within the size cap.
   */
  lemma ResolveOkIff(fs: FileSystem, requestPath: string, p: Path)
    requires TrimStartSlashes(requestPath) != ""
    ensures Resolve(fs, requestPath) == Ok(p) <==>
      && !Suspicious(requestPath)
      && fs.root.Ok?
      && p == Target(fs.root.value, requestPath)
      && p in fs.canonical
      && fs.root.value <= fs.canonical[p]
      && (p in fs.size ==> fs.size[p] <= MAX_FILE_SIZE)
  {
    if !Suspicious(requestPath) && fs.root.Ok? {
      var full := Target(fs.root.value, requestPath);
      assert Resolve(fs, requestPath) ==
        if full !in fs.canonical then Err(NotFound)
        else if !(fs.root.value <= fs.canonical[full]) then Err(PermissionDenied)
        else if full in fs.size && fs.size[full] > MAX_FILE_SIZE then Err(Other)
        else Ok(full);
    }
  }

  /**
   * Determinism: the outcome depends on the filesystem only through the
   * canonical root and what it says of the one target path, so resolving
   * again against a filesystem that agrees on these gives the same result.
   */
  lemma ResolveDependsOnlyOnTarget(fs1: FileSystem, fs2: FileSystem, requestPath: string)
    requires fs1.root == fs2.root
    requires fs1.root.Ok? ==>
      var full := Target(fs1.root.value, requestPath);
      && (full in fs1.canonical <==> full in fs2.canonical)
      && (full in fs1.canonical ==> fs1.canonical[full] == fs2.canonical[full])
      && (full in fs1.size <==> full in fs2.size)
      && (full in fs1.size ==> fs1.size[full] == fs2.size[full])
    ensures Resolve(fs1, requestPath) == Resolve(fs2, requestPath)
  {
  }

  /** A `..` component of a relative path means the path text holds `..`. */
  lemma {:induction false} ParentComponentNeedsDots(s: string)
    requires ".." in Components(s)
    ensures HasPair(s, '.', '.')
    decreases |s|
  {
    var i := IndexOf(s, '/');
    var first := s[..i];
    if first == ".." {
      assert s[0] == first[0] && s[1] == first[1];
      assert 0 <= 0 < |s| - 1 && s[0] == '.' && s[0 + 1] == '.';
    } else {
      var tail := if i == |s| then [] else Components(s[i + 1..]);
      assert ".." in tail by {
        assert Components(s) == tail || Components(s) == [first] + tail;
      }
      var rest := s[i + 1..];
      ParentComponentNeedsDots(rest);
      var j :| 0 <= j < |rest| - 1 && rest[j] == '.' && rest[j + 1] == '.';
      assert s[i + 1 + j] == '.' && s[i + 1 + j + 1] == '.';
    }
  }

  /**
   * After the pre-filter, the path pushed onto the root has no `..`
   * component, so the joined path cannot name a parent of the root.
   */
  lemma NoParentComponent(requestPath: string)
    requires !Suspicious(requestPath)
    ensures ".." !in Components(TrimStartSlashes(requestPath))
  {
    var clean := TrimStartSlashes(requestPath);
    if ".." in Components(clean) {
      ParentComponentNeedsDots(clean);
      assert false;
    }
  }

  /**
   * Removing every leading slash is the same as removing one: after the
   * pre-filter the path cannot start with two.
   */
  lemma TrimAllIsStripOne(requestPath: string)
    requires !Suspicious(requestPath)
    ensures TrimStartSlashes(requestPath) ==
      if requestPath != "" && requestPath[0] == '/' then requestPath[1..] else requestPath
  {
    if requestPath != "" && requestPath[0] == '/' && |requestPath| > 1 && requestPath[1] == '/' {
      assert HasPair(requestPath, '/', '/');
    }
  }
}
