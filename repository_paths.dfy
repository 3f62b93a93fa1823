/**
  Utility.AssetPathToRepository and the environment flags GitFound and
  ActiveRepository. The environment's paths (GitRoot, UnityAssetsPath,
  GitInstallPath) and the platform's separator characters are parameters.
*/
module RepositoryPaths {
  import opened Wrappers
  import opened Strings

  /** String.Substring throws ArgumentOutOfRangeException for an index or length outside the string. */
  datatype Error = ArgumentOutOfRange

  /**
    System.IO.Path's separator characters: DirectorySeparatorChar,
    AltDirectorySeparatorChar and VolumeSeparatorChar ('/', '/', '/' on Unix;
    '\\', '/', ':' on Windows).
  */
  datatype Platform = Platform(dirSep: char, altSep: char, volSep: char)

  /** The name of the project's asset folder, whose length AssetPathToRepository cuts off. */
  const AssetsFolder: string := "Assets"

  /** Path.IsPathRooted: a leading separator, or a drive such as "C:" where the volume separator is its own character. */
  predicate IsPathRooted(p: string, pf: Platform) {
    |p| > 0 &&
    (p[0] == pf.dirSep || p[0] == pf.altSep || (pf.dirSep != pf.volSep && |p| > 1 && p[1] == pf.volSep))
  }

  /** `p` ends with one of the three separator characters. */
  predicate EndsWithSeparator(p: string, pf: Platform) {
    |p| > 0 && p[|p| - 1] in {pf.dirSep, pf.altSep, pf.volSep}
  }

  /**
    Path.Combine(path1, path2): an empty argument gives the other one, a rooted
    `path2` replaces `path1`, and otherwise the two are joined with exactly one
    separator between them, added only when `path1` does not already end in one.
  */
  function Combine(path1: string, path2: string, pf: Platform): (r: string)
    ensures EndsWith(r, path2)
    ensures path2 == "" ==> r == path1
    ensures IsPathRooted(path2, pf) ==> r == path2
    ensures !IsPathRooted(path2, pf) ==>
      && StartsWith(r, path1)
      && |path1| + |path2| <= |r| <= |path1| + 1 + |path2|
      && (|r| == |path1| + 1 + |path2| <==> path1 != "" && path2 != "" && !EndsWithSeparator(path1, pf))
      && (|r| == |path1| + 1 + |path2| ==> r[|path1|] == pf.dirSep)
  {
    if path1 == "" then path2
    else if path2 == "" then path1
    else if IsPathRooted(path2, pf) then path2
    else if !EndsWithSeparator(path1, pf) then path1 + [pf.dirSep] + path2
    else path1 + path2
  }

  /**
    The part of UnityAssetsPath between GitRoot plus one separator and the
    trailing asset folder name: the Unity project's folder inside the repository.
  */
  function ProjectFolder(gitRoot: string, unityAssetsPath: string): string
    requires |gitRoot| + 1 + |AssetsFolder| <= |unityAssetsPath|
  {
    unityAssetsPath[|gitRoot| + 1..|unityAssetsPath| - |AssetsFolder|]
  }

  /**
    Utility.AssetPathToRepository: the repository-relative path of an asset
    whose path is given relative to the Unity project, with its '/' separators
    turned into the platform's. Either Substring call may throw.
  */
  function AssetPathToRepository(gitRoot: string, unityAssetsPath: string, pf: Platform, assetPath: string)
    : (r: Result<string, Error>)
    ensures r.Failure? <==> |unityAssetsPath| < |gitRoot| + 1 + |AssetsFolder|
    ensures r.Failure? ==> r.error == ArgumentOutOfRange
    ensures r.Success? ==> EndsWith(r.value, Replace(assetPath, '/', pf.dirSep))
    ensures r.Success? && !IsPathRooted(Replace(assetPath, '/', pf.dirSep), pf) ==>
              StartsWith(r.value, ProjectFolder(gitRoot, unityAssetsPath))
    ensures r.Success? ==>
              r.value == Combine(ProjectFolder(gitRoot, unityAssetsPath), Replace(assetPath, '/', pf.dirSep), pf)
  {
    if |unityAssetsPath| < |gitRoot| + 1 then Failure(ArgumentOutOfRange)
    else
      var localDataPath := unityAssetsPath[|gitRoot| + 1..];
      if |localDataPath| < |AssetsFolder| then Failure(ArgumentOutOfRange)
      else
        assert localDataPath[..|localDataPath| - |AssetsFolder|] == ProjectFolder(gitRoot, unityAssetsPath);
        Success(Combine(localDataPath[..|localDataPath| - |AssetsFolder|], Replace(assetPath, '/', pf.dirSep), pf))
  }

  /**
    For UnityAssetsPath = root + one character + project + six characters, where
    `root` has the length of GitRoot, the result joins `project` with the
    converted asset path. Only GitRoot's length is used: neither the text of
    `root` (it need not equal GitRoot, in case or in separators), nor the
    character after it, nor the last six characters (which are not checked to
    be "Assets") matter.
  */
  lemma AssetPathUnderProject(gitRoot: string, root: string, c: char, project: string, assets: string, pf: Platform, assetPath: string)
    requires |root| == |gitRoot| && |assets| == |AssetsFolder|
    ensures AssetPathToRepository(gitRoot, root + [c] + project + assets, pf, assetPath)
            == Success(Combine(project, Replace(assetPath, '/', pf.dirSep), pf))
  {
    var u := root + [c] + project + assets;
    var local := u[|gitRoot| + 1..];
    assert local == project + assets;
    assert local[..|local| - |AssetsFolder|] == project;
  }

  /**
    When the Unity project is the repository root (UnityAssetsPath = GitRoot +
    separator + "Assets"), the result is the asset path with every '/' replaced
    by the directory separator, and with no '/' left on a platform whose
    directory separator is not '/'.
  */
  lemma AssetPathAtRepositoryRoot(gitRoot: string, pf: Platform, assetPath: string)
    ensures var r := AssetPathToRepository(gitRoot, gitRoot + [pf.dirSep] + AssetsFolder, pf, assetPath);
      && r == Success(Replace(assetPath, '/', pf.dirSep))
      && (pf.dirSep != '/' ==> '/' !in r.value)
  {
  }

  /** String.IsNullOrEmpty, with null as None. */
  predicate IsNullOrEmpty(s: Option<string>) {
    s.None? || s.value == ""
  }

  /** Utility.GitFound: a git installation path is known. */
  predicate GitFound(gitInstallPath: Option<string>)
    ensures GitFound(gitInstallPath) <==> gitInstallPath.Some? && |gitInstallPath.value| > 0
  {
    !IsNullOrEmpty(gitInstallPath)
  }

  /** Utility.ActiveRepository: a repository root is known. */
  predicate ActiveRepository(gitRoot: Option<string>)
    ensures ActiveRepository(gitRoot) <==> gitRoot.Some? && |gitRoot.value| > 0
  {
    !IsNullOrEmpty(gitRoot)
  }
}
