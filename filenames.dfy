/**
 * File-name rules: which files `get_file_list` picks up and where
 * `create_mapping_file` writes, so that outputs are never taken for inputs.
 */
module FileNames {
  import opened Text

  const Extension: string := ".yml"
  const MapSuffix: string := "__map.yml"

  /**
   * The filter of `get_file_list`: ends in `.yml` but not in `__map.yml`. The
   * `[:-4]` of the mapping name then cuts off exactly the `.yml`.
   */
  predicate IsCandidate(name: string)
    ensures IsCandidate(name) ==> name == DropLastFour(name) + Extension
  {
    EndsWith(name, Extension) && !EndsWith(name, MapSuffix)
  }

  /** Python's `s[:-4]`, which is empty when `s` has fewer than four characters. */
  function DropLastFour(s: string): (r: string)
    ensures |s| >= 4 ==> s == r + s[|s| - 4..]
    ensures |s| < 4 ==> r == ""
  {
    if |s| >= 4 then s[..|s| - 4] else ""
  }

  /** `file_name[:-4] + "__map.yml"`: the path of the mapping file for a vault file. */
  function MappingFileName(fileName: string): (mapName: string)
    ensures EndsWith(mapName, MapSuffix)
    ensures !IsCandidate(mapName)
  {
    var m := DropLastFour(fileName) + MapSuffix;
    assert m[|m| - |MapSuffix|..] == MapSuffix;
    m
  }

  /**
   * `path.split("/")[-1]`: the last component of a path, i.e. the whole path
   * when it has no `/`, and otherwise everything after its last `/`.
   */
  function BaseName(path: string): (name: string)
    ensures '/' !in name
    ensures EndsWith(path, name)
    ensures '/' !in path ==> name == path
    ensures '/' in path ==> |name| < |path| && path[|path| - |name| - 1] == '/'
  {
    LastPieceIsSuffix(path, '/');
    Last(Split(path, '/'))
  }

  /**
   * `os.path.join(dir, name)` on POSIX: an absolute `name` replaces `dir`, and
   * otherwise `name` is put after `dir` with one `/` between them unless `dir`
   * is empty or already ends in `/`. Joining a plain file name and taking the
   * base name again gives the file name back.
   */
  function PathJoin(dir: string, name: string): (joined: string)
    ensures StartsWith(name, "/") ==> joined == name
    ensures !StartsWith(name, "/") ==> StartsWith(joined, dir) && EndsWith(joined, name)
    ensures '/' !in name ==> BaseName(joined) == name
  {
    if StartsWith(name, "/") then name
    else if dir == "" || EndsWith(dir, "/") then
      BaseNameAfterDirectory(dir, name);
      assert (dir + name)[..|dir|] == dir;
      EndsWithAppend(dir, name);
      dir + name
    else
      BaseNameAfterDirectory(dir + "/", name);
      assert dir + "/" + name == (dir + "/") + name;
      assert (dir + "/" + name)[..|dir|] == dir;
      EndsWithAppend(dir + "/", name);
      dir + "/" + name
  }

  /** After a directory that is empty or ends in `/`, the base name is the file name. */
  lemma BaseNameAfterDirectory(dir: string, name: string)
    ensures '/' !in name && (dir == "" || EndsWith(dir, "/")) ==> BaseName(dir + name) == name
  {
    if '/' !in name && (dir == "" || EndsWith(dir, "/")) {
      var path := dir + name;
      var base := BaseName(path);
      if dir == "" {
        assert path == name;
      } else {
        assert path[|dir| - 1] == '/';
        assert base == path[|path| - |name|..];
      }
    }
  }

  /** The names that pass the filter of `get_file_list`, in list order. */
  function Candidates(fileNames: seq<string>): (kept: seq<string>)
    ensures forall f :: f in kept <==> f in fileNames && IsCandidate(f)
    ensures |kept| <= |fileNames|
  {
    if |fileNames| == 0 then []
    else
      var rest := Candidates(fileNames[1..]);
      assert forall f :: f in fileNames <==> f == fileNames[0] || f in fileNames[1..];
      if IsCandidate(fileNames[0]) then [fileNames[0]] + rest else rest
  }

  /**
   * The list comprehension of `get_file_list` for one directory that `os.walk`
   * visits: the candidate names, each joined to the directory.
   */
  function CandidatePaths(dirPath: string, fileNames: seq<string>): (paths: seq<string>)
    ensures forall p :: p in paths ==>
      exists f :: f in fileNames && IsCandidate(f) && p == PathJoin(dirPath, f)
    ensures forall f :: f in fileNames && IsCandidate(f) ==> PathJoin(dirPath, f) in paths
    ensures |paths| <= |fileNames|
  {
    var kept := Candidates(fileNames);
    var paths := JoinAll(dirPath, kept);
    assert forall f :: f in kept ==> PathJoin(dirPath, f) in paths by {
      forall f | f in kept ensures PathJoin(dirPath, f) in paths {
        var i :| 0 <= i < |kept| && kept[i] == f;
        assert paths[i] == PathJoin(dirPath, f);
      }
    }
    paths
  }

  /** Each name joined to the directory, in order. */
  function JoinAll(dirPath: string, names: seq<string>): (paths: seq<string>)
    ensures |paths| == |names|
    ensures forall i :: 0 <= i < |names| ==> paths[i] == PathJoin(dirPath, names[i])
  {
    seq(|names|, i requires 0 <= i < |names| => PathJoin(dirPath, names[i]))
  }

  lemma JoinAllAppend(dirPath: string, a: seq<string>, b: seq<string>)
    ensures JoinAll(dirPath, a + b) == JoinAll(dirPath, a) + JoinAll(dirPath, b)
  {
  }

  /** The candidates of a concatenation of name lists are those of each list, in order. */
  lemma {:induction false} CandidatesAppend(a: seq<string>, b: seq<string>)
    ensures Candidates(a + b) == Candidates(a) + Candidates(b)
  {
    if |a| > 0 {
      var head := if IsCandidate(a[0]) then [a[0]] else [];
      assert Candidates(a + b) == head + Candidates(a[1..] + b) by {
        assert (a + b)[1..] == a[1..] + b;
        assert (a + b)[0] == a[0];
      }
      CandidatesAppend(a[1..], b);
    } else {
      assert a + b == b;
    }
  }

  /** The paths of a concatenation of name lists are the paths of each list, in order. */
  lemma CandidatePathsAppend(dirPath: string, a: seq<string>, b: seq<string>)
    ensures CandidatePaths(dirPath, a + b) == CandidatePaths(dirPath, a) + CandidatePaths(dirPath, b)
  {
    CandidatesAppend(a, b);
    JoinAllAppend(dirPath, Candidates(a), Candidates(b));
  }

  /** One name gives its joined path when it is a candidate, and nothing otherwise. */
  lemma CandidatePathsOne(dirPath: string, f: string)
    ensures CandidatePaths(dirPath, [f]) == if IsCandidate(f) then [PathJoin(dirPath, f)] else []
  {
    assert [f][1..] == [];
  }

  lemma EndsWithAppend(s: string, suffix: string)
    ensures EndsWith(s + suffix, suffix)
  {
    assert (s + suffix)[|s|..] == suffix;
  }

  /**
   * A mapping file, seen by a later run's directory walk under its own name,
   * is never a candidate: the tool does not process its own output.
   */
  lemma MappingFileNeverCandidate(fileName: string)
    ensures !IsCandidate(BaseName(MappingFileName(fileName)))
  {
    var stem := DropLastFour(fileName);
    SplitWithoutSep(MapSuffix, '/');
    SplitAppend(stem, MapSuffix, '/');
    var p := Split(stem, '/');
    assert Last(Split(stem + MapSuffix, '/')) == Last(p) + MapSuffix;
    EndsWithAppend(Last(p), MapSuffix);
  }

  /** The mapping file of a file found in a directory lies in that same directory. */
  lemma MappingFileInSameDirectory(dir: string, name: string)
    requires EndsWith(name, Extension) && '/' !in name
    ensures MappingFileName(PathJoin(dir, name)) == PathJoin(dir, MappingFileName(name))
  {
    var m := MappingFileName(name);
    assert !StartsWith(name, "/") by {
      assert name[0] in name;
    }
    assert !StartsWith(m, "/") by {
      if |name| > 4 {
        assert m[0] == name[0];
        assert name[0] in name;
      } else {
        assert m[0] == '_';
      }
    }
    JoinRelative(dir, name);
    JoinRelative(dir, m);
    MappingFileNameAfter(if dir == "" || EndsWith(dir, "/") then dir else dir + "/", name);
  }

  /** Putting a directory in front of a vault file puts it in front of the mapping file. */
  lemma MappingFileNameAfter(d: string, name: string)
    requires |name| >= 4
    ensures MappingFileName(d + name) == d + MappingFileName(name)
  {
    assert (d + name)[..|d + name| - 4] == d + name[..|name| - 4];
  }

  /** A relative name is put after the directory and at most one added `/`. */
  lemma JoinRelative(dir: string, name: string)
    requires !StartsWith(name, "/")
    ensures PathJoin(dir, name) == (if dir == "" || EndsWith(dir, "/") then dir else dir + "/") + name
  {
  }

  /** Two different vault files never share a mapping file. */
  lemma MappingFileNameInjective(a: string, b: string)
    requires EndsWith(a, Extension) && EndsWith(b, Extension)
    requires MappingFileName(a) == MappingFileName(b)
    ensures a == b
  {
    var sa, sb := DropLastFour(a), DropLastFour(b);
    assert sa + MapSuffix == sb + MapSuffix;
    assert sa == (sa + MapSuffix)[..|sa|];
    assert |sa| == |sb|;
    assert sb == (sb + MapSuffix)[..|sb|];
    assert a == sa + Extension;
    assert b == sb + Extension;
  }

  /** `secrets.yml` is processed and writes `secrets__map.yml`, which is not processed. */
  lemma SecretsExample()
    ensures IsCandidate("secrets.yml")
    ensures MappingFileName("secrets.yml") == "secrets__map.yml"
    ensures !IsCandidate("secrets__map.yml")
  {
    assert "secrets.yml"[11 - 4..] == Extension;
    assert "secrets.yml"[..11 - 4] == "secrets";
    assert "secrets.yml"[11 - 9..] != MapSuffix by {
      assert "secrets.yml"[2] != MapSuffix[0];
    }
  }
}
