# Utility helpers of the GitHub for Unity editor extension

This project models the logic in `Utility.cs` of the GitHub for Unity editor
extension. The rest of that file is editor, stream and environment plumbing.
Three pieces are modelled, each in its own module:

- **CommonPath** (`common_path.dfy`) models `FindCommonPath(separator, paths)`.
  It picks the first path of maximal length and splits it on `separator`,
  dropping empty entries. It then grows `commonPath` one `segment + separator`
  at a time while every path still starts with it, and stops at the first
  failure. The method keeps the source's `foreach`/`break` loop with both of
  its tests. It is proved equal to the specification function `CommonPathOf`.
  Lemmas prove that `CommonPathOf` is a prefix of every path, is `""` or ends
  with the separator, and is the longest segment-aligned shared prefix. They
  also prove that the result is `""` when the separator is one character and
  the first longest path begins with it.
- **ReadyCallbacks** (`ready_callbacks.dfy`) models the ready-callback
  broadcaster: the static `ready` flag and the multicast delegate `onReady`.
  They become the fields of one `ReadyBroadcaster` object. The invocation list
  is a `seq` of callback identities. A ghost `trace` records every callback
  invocation in order. `-=` is C# delegate removal: the last occurrence leaves
  the list.
- **RepositoryPaths** (`repository_paths.dfy`) models `AssetPathToRepository`.
  `GitRoot`, `UnityAssetsPath` and the platform's separator characters are
  parameters. `Path.Combine` is modelled by its rules. The two `Substring`
  exceptions become an error result. The module also defines the predicates
  `GitFound` and `ActiveRepository` ("the path is neither null nor empty").

Two more modules support these. **Strings** (`strings.dfy`) models the .NET
string operations the code calls, with ordinal comparison: `StartsWith`,
`Split` with `RemoveEmptyEntries`, and `Replace`. Its `IndexOf` is not called
by the code; it models the search for the next separator inside `Split`. **Wrappers**
(`wrappers.dfy`) holds `Option` and `Result`.

An exception that the source throws to its caller becomes a `Failure` value,
not a precondition:

- `First` and `Max` fail on an empty `paths`, which gives `EmptySequence`.
- Either `Substring` call in `AssetPathToRepository` can fail, which gives
  `ArgumentOutOfRange`.

Paths that begin with a one-character separator give an empty common path.
For `FindCommonPath("/", ["/a/b/c", "/a/b/d"])` a reader might expect
`"/a/b/"`, but the code returns `""`. `RemoveEmptyEntries` drops the leading empty
segment, so the first extension is `"a/"`, and `"/a/b/c"` does not start with
it. The model follows the code. `AbsolutePathsExample` and
`LeadingSeparatorGivesEmpty` prove this behaviour. For relative paths the
utility works as intended, as `RelativePathsExample` shows (`"a/b/"`). A
drive-rooted path keeps its drive: `DriveRootedPathsExample` gives `"C:\\"` for
`["C:\\a", "C:\\b"]` with separator `"\\"`.

## Model

| member | source | states |
|---|---|---|
| CommonPath.FindCommonPath | src/UnityExtension/Assets/Editor/GitHub.Unity/Misc/Utility.cs:87-114 | fails with EmptySequence exactly when `paths` is empty; otherwise returns the common path that `CommonPathOf` specifies, keeping both tests of the loop |
| CommonPath.CommonPathOf | src/UnityExtension/Assets/Editor/GitHub.Unity/Misc/Utility.cs:95-113 | every path starts with the result, and the result is `""` or ends with the separator |
| CommonPath.CommonPathIsLongest | src/UnityExtension/Assets/Editor/GitHub.Unity/Misc/Utility.cs:95-110 | every segment-aligned prefix of the first longest path that all paths share is a prefix of the result, so the result is the longest such prefix |
| CommonPath.SharedRunSpec | src/UnityExtension/Assets/Editor/GitHub.Unity/Misc/Utility.cs:95-110 | the accepted run keeps every path starting with the accepted prefix, and it ends at the last segment or at the first extension some path does not start with |
| CommonPath.SharedRunStopsAtFirstFailure | src/UnityExtension/Assets/Editor/GitHub.Unity/Misc/Utility.cs:99-109 | the loop's stopping point is unique: a count whose prefix all paths share and whose next extension fails is the accepted count, so no later segment is considered |
| CommonPath.SharedRunStep | src/UnityExtension/Assets/Editor/GitHub.Unity/Misc/Utility.cs:99-109 | a shared extension moves the run on by one segment; a failing one ends it there (the `break`) |
| CommonPath.TerminatedStep | src/UnityExtension/Assets/Editor/GitHub.Unity/Misc/Utility.cs:97-105 | accepting segment k appends `segment + separator` to the accepted prefix |
| CommonPath.TerminatedMonotone | src/UnityExtension/Assets/Editor/GitHub.Unity/Misc/Utility.cs:97-105 | accepting more segments only extends `commonPath`: fewer segments give a prefix of more |
| CommonPath.TerminatedEndsWithSeparator | src/UnityExtension/Assets/Editor/GitHub.Unity/Misc/Utility.cs:97-105 | a non-empty `commonPath` ends with the separator |
| CommonPath.MaxLength | src/UnityExtension/Assets/Editor/GitHub.Unity/Misc/Utility.cs:91 | `paths.Max(p => p.Length)`: no path is longer, and some path has that length |
| CommonPath.FirstOfLength | src/UnityExtension/Assets/Editor/GitHub.Unity/Misc/Utility.cs:91 | the first index at or after `from` whose path has the given length |
| CommonPath.FirstLongest | src/UnityExtension/Assets/Editor/GitHub.Unity/Misc/Utility.cs:91 | the chosen path has maximal length, and every earlier path is strictly shorter |
| CommonPath.Segments | src/UnityExtension/Assets/Editor/GitHub.Unity/Misc/Utility.cs:90-93 | every segment of the chosen path is non-empty and holds no separator |
| CommonPath.SegmentsArePieces | src/UnityExtension/Assets/Editor/GitHub.Unity/Misc/Utility.cs:90-93 | the segments are the non-empty pieces of the first longest path, each as often as it occurs there |
| CommonPath.SegmentsOfJoinedPath | src/UnityExtension/Assets/Editor/GitHub.Unity/Misc/Utility.cs:90-93 | with a one-character separator, a first longest path made of non-empty separator-free segments joined by it has exactly those segments, in order |
| CommonPath.SharedRun | src/UnityExtension/Assets/Editor/GitHub.Unity/Misc/Utility.cs:95-110 | the number of segments the loop accepts lies between the starting count and the number of segments |
| CommonPath.LeadingSeparatorGivesEmpty | src/UnityExtension/Assets/Editor/GitHub.Unity/Misc/Utility.cs:91-99 | with a one-character separator and a first longest path that begins with it, the result is `""` |
| CommonPath.AbsolutePathsExample | src/UnityExtension/Assets/Editor/GitHub.Unity/Misc/Utility.cs:91-99 | `["/a/b/c", "/a/b/d"]` with `"/"` gives `""` |
| CommonPath.RelativePathsExample | src/UnityExtension/Assets/Editor/GitHub.Unity/Misc/Utility.cs:87-114 | `["a/b/c", "a/b/d"]` with `"/"` gives `"a/b/"`: the run stops at `"a/b/c/"` |
| CommonPath.RelativeSegmentsExample | src/UnityExtension/Assets/Editor/GitHub.Unity/Misc/Utility.cs:90-93 | the first longest of `"a/b/c"` and `"a/b/d"` is `"a/b/c"`, with segments a, b, c |
| CommonPath.SplitExample | src/UnityExtension/Assets/Editor/GitHub.Unity/Misc/Utility.cs:92 | `"a/b/c"` split on `"/"` without empty entries is a, b, c |
| CommonPath.TerminatedExample | src/UnityExtension/Assets/Editor/GitHub.Unity/Misc/Utility.cs:97-105 | accepting a, b and then c builds `"a/b/"` and `"a/b/c/"` |
| CommonPath.DriveRootedPathsExample | src/UnityExtension/Assets/Editor/GitHub.Unity/Misc/Utility.cs:95-110 | `["C:\\a", "C:\\b"]` with `"\\"` gives `"C:\\"`: a drive-rooted path keeps its drive, and the run stops at `"C:\\a\\"` |
| CommonPath.DriveSegmentsExample | src/UnityExtension/Assets/Editor/GitHub.Unity/Misc/Utility.cs:90-93 | the first longest of `"C:\\a"` and `"C:\\b"` is `"C:\\a"`, with segments `"C:"` and `"a"` |
| CommonPath.DriveTerminatedExample | src/UnityExtension/Assets/Editor/GitHub.Unity/Misc/Utility.cs:97-105 | accepting `"C:"` and then `"a"` builds `"C:\\"` and `"C:\\a\\"` |
| Strings.IndexOf | src/UnityExtension/Assets/Editor/GitHub.Unity/Misc/Utility.cs:92 | the first occurrence of the separator at or after `from`, or none at all |
| Strings.Split | src/UnityExtension/Assets/Editor/GitHub.Unity/Misc/Utility.cs:92 | at least one piece, and no piece contains the separator; `JoinSplit` and `SplitLeftmost` fix the pieces as the leftmost cuts that join back to the string |
| Strings.JoinSplit | src/UnityExtension/Assets/Editor/GitHub.Unity/Misc/Utility.cs:92 | joining the pieces with the separator gives back the string |
| Strings.SplitLeftmost | src/UnityExtension/Assets/Editor/GitHub.Unity/Misc/Utility.cs:92 | the cuts fall at the leftmost non-overlapping occurrences: no occurrence of the separator starts inside a piece that a cut follows |
| Strings.FirstOccurrenceNotOverlapped | src/UnityExtension/Assets/Editor/GitHub.Unity/Misc/Utility.cs:92 | when the separator first occurs at `i`, no occurrence starts before `i` and runs into it, so the first cut is the leftmost one |
| Strings.OverlappingSeparatorExample | src/UnityExtension/Assets/Editor/GitHub.Unity/Misc/Utility.cs:92 | a separator that overlaps itself: `"aaa"` split on `"aa"` gives `""` and `"a"` |
| Strings.RemoveEmpty | src/UnityExtension/Assets/Editor/GitHub.Unity/Misc/Utility.cs:92 | no kept piece is empty, and a string is kept exactly when it is a non-empty input piece |
| Strings.RemoveEmptyMultiset | src/UnityExtension/Assets/Editor/GitHub.Unity/Misc/Utility.cs:92 | every non-empty piece is kept as often as it occurs, and no empty piece is kept |
| Strings.RemoveEmptyAppend | src/UnityExtension/Assets/Editor/GitHub.Unity/Misc/Utility.cs:92 | filtering a concatenation filters each part, in order, so the kept pieces keep their order |
| Strings.RemoveEmptyOfNonEmpty | src/UnityExtension/Assets/Editor/GitHub.Unity/Misc/Utility.cs:92 | pieces that are all non-empty pass the filter unchanged |
| Strings.IndexOfIs | src/UnityExtension/Assets/Editor/GitHub.Unity/Misc/Utility.cs:92 | the first occurrence is at `i` when the separator occurs there and nowhere before |
| Strings.SplitJoin | src/UnityExtension/Assets/Editor/GitHub.Unity/Misc/Utility.cs:92 | with a one-character separator, splitting separator-free pieces joined by it gives the pieces back |
| Strings.SplitRemoveEmptyEntriesJoin | src/UnityExtension/Assets/Editor/GitHub.Unity/Misc/Utility.cs:92 | with a one-character separator, non-empty separator-free segments joined by it split back into exactly those segments, in order |
| Strings.SplitRemoveEmptyEntries | src/UnityExtension/Assets/Editor/GitHub.Unity/Misc/Utility.cs:92 | every entry is non-empty and holds no separator |
| Strings.Replace | src/UnityExtension/Assets/Editor/GitHub.Unity/Misc/Utility.cs:70 | same length; every `'/'` becomes the directory separator, and every other character is unchanged |
| ReadyCallbacks.LastIndexOf | src/UnityExtension/Assets/Editor/GitHub.Unity/Misc/Utility.cs:51 | the index of the last occurrence of the callback, or -1 exactly when it is absent |
| ReadyCallbacks.RemoveLast | src/UnityExtension/Assets/Editor/GitHub.Unity/Misc/Utility.cs:51 | `-=` leaves an invocation list without the callback unchanged; otherwise it removes exactly the last occurrence |
| ReadyCallbacks.RemoveLastMultiset | src/UnityExtension/Assets/Editor/GitHub.Unity/Misc/Utility.cs:51 | `-=` removes one copy of the callback and keeps every other entry |
| ReadyCallbacks.RemoveLastKeepsOrder | src/UnityExtension/Assets/Editor/GitHub.Unity/Misc/Utility.cs:51 | the entries that stay keep their relative order |
| ReadyCallbacks.RemoveLastUndoesAppend | src/UnityExtension/Assets/Editor/GitHub.Unity/Misc/Utility.cs:37-52 | unregistering the callback registered last, before Run, restores the invocation list |
| ReadyCallbacks.ReadyBroadcaster.constructor | src/UnityExtension/Assets/Editor/GitHub.Unity/Misc/Utility.cs:34-35 | the initial state: not ready, no callbacks, nothing invoked |
| ReadyCallbacks.ReadyBroadcaster.Invoke | src/UnityExtension/Assets/Editor/GitHub.Unity/Misc/Utility.cs:45 | invoking a callback records exactly that invocation |
| ReadyCallbacks.ReadyBroadcaster.RegisterReadyCallback | src/UnityExtension/Assets/Editor/GitHub.Unity/Misc/Utility.cs:37-47 | before Run, the callback is appended and nothing is invoked; after Run, it is invoked once at once and the list is unchanged; `ready` never changes |
| ReadyCallbacks.ReadyBroadcaster.UnregisterReadyCallback | src/UnityExtension/Assets/Editor/GitHub.Unity/Misc/Utility.cs:49-52 | the list loses the last registration of the callback; `ready` and the invocations do not change |
| ReadyCallbacks.ReadyBroadcaster.SafeInvoke | src/UnityExtension/Assets/Editor/GitHub.Unity/Misc/Utility.cs:63 | every entry is invoked once, in list order, and an empty list invokes nothing |
| ReadyCallbacks.ReadyBroadcaster.Run | src/UnityExtension/Assets/Editor/GitHub.Unity/Misc/Utility.cs:60-64 | `ready` becomes true; the queued callbacks are invoked in registration order; the queue is kept, so a second Run invokes them again |
| RepositoryPaths.Combine | src/UnityExtension/Assets/Editor/GitHub.Unity/Misc/Utility.cs:69-70 | `Path.Combine`: the result ends with `path2`; an empty `path2` gives `path1`; a rooted `path2` is the result, whatever `path1` is; otherwise `path1` is a prefix, and exactly one directory separator is added, only when both are non-empty and `path1` does not already end in a separator |
| RepositoryPaths.AssetPathToRepository | src/UnityExtension/Assets/Editor/GitHub.Unity/Misc/Utility.cs:66-71 | fails exactly when UnityAssetsPath is shorter than GitRoot + 1 + 6 characters; otherwise it is `Path.Combine` of the project folder (the characters between GitRoot's length + 1 and the last six) and the asset path with `'/'` replaced, so it ends with the converted asset path and, when that path is not rooted, starts with the project folder |
| RepositoryPaths.AssetPathUnderProject | src/UnityExtension/Assets/Editor/GitHub.Unity/Misc/Utility.cs:66-71 | for UnityAssetsPath = any text of GitRoot's length + one character + project + six characters, the result combines `project` with the converted asset path; only GitRoot's length is used, and the six characters are not checked to be "Assets" |
| RepositoryPaths.GitFound | src/UnityExtension/Assets/Editor/GitHub.Unity/Misc/Utility.cs:143-146 | true exactly when the git installation path is neither null nor empty |
| RepositoryPaths.ActiveRepository | src/UnityExtension/Assets/Editor/GitHub.Unity/Misc/Utility.cs:148-151 | true exactly when the repository root is neither null nor empty |
| RepositoryPaths.AssetPathAtRepositoryRoot | src/UnityExtension/Assets/Editor/GitHub.Unity/Misc/Utility.cs:66-71 | with the project at the repository root, the result is the asset path with `'/'` replaced, and it has no `'/'` left when the separator is not `'/'` |

## Left out

- `GetIcon` and `StreamExtensions.ToTexture2D` (lines 73-84, 159-177) are left out. They load Unity textures from resource streams and the asset database, and they read `EditorGUIUtility.pixelsPerPoint`, a float.
- `IsDevelopmentBuild` (lines 153-156) is left out because it is a file-system query (`File.Exists`).
- `Initialize` and `Issues` (lines 54-58, 141) are left out. They only allocate a list of `ProjectConfigurationIssue`, and that type is not part of this model.
- The environment getters (lines 116-139) delegate to `EntryPoint.Environment`, which is not part of this model. Their values are parameters here.
- The regex table (lines 16-32) is left out. No code in the file uses it, and modelling it would need .NET regex semantics. In `StatusAheadBehindRegex` (line 31), the behind-only alternative requires a literal `>` after the digits.
- The logger (line 14) is left out because it has no effect on results.
- `StartsWith` is modelled as an ordinal comparison. The source calls the culture-sensitive overload.
- A callback is a single-target delegate, an opaque identity in the invocation list. Passing a multicast `Action` to `RegisterReadyCallback` or `UnregisterReadyCallback` is not modelled: there `-=` removes the last contiguous run that equals the argument's whole invocation list, not one entry.
- Callback bodies are left out: what callbacks do, callbacks that register or unregister during Run, and exceptions thrown by callbacks. Callbacks are foreign code, so they are opaque identities whose invocations are recorded in a ghost trace.
- A null callback, a null path and a null `paths` are left out. In the model strings and sequences are values, not references.
- String lengths and indices are counted in Unicode scalar values, while .NET's `Length`, `Substring` and `StartsWith` count UTF-16 code units. A character outside the Basic Multilingual Plane therefore counts once here and twice in .NET. Such a string can pass the length test of `AssetPathToRepository` in .NET and fail it here. A `Substring` that splits a surrogate pair leaves a lone surrogate, which a Dafny string cannot hold.
- RepositoryPaths.AssetPathToRepository: lengths are counted in characters, not UTF-16 code units (see the line above). For example, `GitRoot = ""` with `UnityAssetsPath = "😀Asset"` succeeds in .NET (7 code units) and fails here (6 characters).
- The static fields become fields of one object. Static-initialisation order and thread safety are not modelled.
- CommonPath.FindCommonPath: requires a non-empty separator, so the empty separator is not modelled. .NET's `Split` skips an empty string in its separator array, so the longest path would stay whole (no entries at all when it is empty), and the loop would return it when every path equals it and `""` otherwise.
- RepositoryPaths.Combine: the `ArgumentException` that `Path.Combine` throws for invalid path characters is not modelled. Its rooted-path test follows Mono, where a drive letter counts only when the volume separator differs from the directory separator.
