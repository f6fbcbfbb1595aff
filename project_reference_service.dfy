/**
 * `Services/ProjectReferenceService.cs`: finding the projects of a solution
 * that reference the project being renamed, and pointing their references
 * at its new path.
 *
 * The file system is a map from the paths of the project files that exist to
 * the documents they hold; a save is a new map. The solution is the tree of
 * projects and solution folders the host enumerates.
 */
module ProjectReferenceService {
  import opened Wrappers
  import opened Text
  import opened Paths
  import opened MsBuild

  type Disk = map<Path, Descriptor>

  const ProjectReference: string := "ProjectReference"

  // ---------------------------------------------------------------------------
  // References in one project file
  // ---------------------------------------------------------------------------

  /**
   * A `ProjectReference` the services act on: returned by the query, with a
   * non-empty `Include` whose file name is `fileName` ignoring case.
   */
  predicate IsReferenceTo(rootNamespaceUri: string, fileName: string, e: Element)
  {
    Selects(rootNamespaceUri, ProjectReference, e)
    && e.includeAttribute.Some? && e.includeAttribute.value != ""
    && EqualsIgnoreCase(FileNameOf(e.includeAttribute.value), fileName)
  }

  /** Whether the document references a project file called `fileName`. */
  predicate ReferencesFile(d: Descriptor, fileName: string)
  {
    exists k :: 0 <= k < |d.elements| && IsReferenceTo(d.rootNamespaceUri, fileName, d.elements[k])
  }

  /** For each queried position, whether it holds a reference to `fileName`. */
  ghost function ReferenceFlags(d: Descriptor, fileName: string, nodes: seq<nat>): (r: seq<bool>)
    requires forall t :: 0 <= t < |nodes| ==> nodes[t] < |d.elements|
    ensures |r| == |nodes|
  {
    seq(|nodes|, t requires 0 <= t < |nodes| => IsReferenceTo(d.rootNamespaceUri, fileName, d.elements[nodes[t]]))
  }

  /** Whether one of the first i flags is set. */
  ghost predicate AnyUpTo(flags: seq<bool>, i: nat)
    requires i <= |flags|
  {
    i > 0 && (AnyUpTo(flags, i - 1) || flags[i - 1])
  }

  lemma {:induction false} AnyUpToIs(flags: seq<bool>, i: nat)
    requires i <= |flags|
    ensures AnyUpTo(flags, i) <==> true in flags[..i]
  {
    if i > 0 {
      AnyUpToIs(flags, i - 1);
      assert flags[..i] == flags[..i - 1] + [flags[i - 1]];
    }
  }

  /** Some queried position is flagged exactly when the document holds a reference. */
  lemma FlagsFindReference(d: Descriptor, fileName: string, nodes: seq<nat>)
    requires nodes == SelectedIndices(d.rootNamespaceUri, d.elements, ProjectReference)
    ensures true in ReferenceFlags(d, fileName, nodes) <==> ReferencesFile(d, fileName)
  {
    var flags := ReferenceFlags(d, fileName, nodes);
    if ReferencesFile(d, fileName) {
      var k :| 0 <= k < |d.elements| && IsReferenceTo(d.rootNamespaceUri, fileName, d.elements[k]);
      SelectedIndicesComplete(d.rootNamespaceUri, d.elements, ProjectReference, k);
      var t :| 0 <= t < |nodes| && nodes[t] == k;
      assert flags[t];
    }
    if true in flags {
      var t :| 0 <= t < |flags| && flags[t];
      assert IsReferenceTo(d.rootNamespaceUri, fileName, d.elements[nodes[t]]);
    }
  }

  /** Visiting every queried position finds a reference exactly when the document has one. */
  lemma VisitingAllFindsReference(d: Descriptor, fileName: string, nodes: seq<nat>)
    requires nodes == SelectedIndices(d.rootNamespaceUri, d.elements, ProjectReference)
    ensures AnyUpTo(ReferenceFlags(d, fileName, nodes), |nodes|) <==> ReferencesFile(d, fileName)
  {
    var flags := ReferenceFlags(d, fileName, nodes);
    FlagsFindReference(d, fileName, nodes);
    AnyUpToIs(flags, |nodes|);
    assert flags[..|nodes|] == flags;
  }

  /**
   * `ProjectReferencesTarget` on the loaded project file: walk the
   * `ProjectReference` elements and stop at the first whose `Include` names
   * the target file.
   */
  method ProjectReferencesTarget(file: Descriptor, targetFileName: string) returns (r: bool)
    ensures r <==> ReferencesFile(file, targetFileName)
  {
    var nodes := SelectedIndices(file.rootNamespaceUri, file.elements, ProjectReference);
    ghost var flags := ReferenceFlags(file, targetFileName, nodes);
    VisitingAllFindsReference(file, targetFileName, nodes);
    for i := 0 to |nodes|
      invariant !AnyUpTo(flags, i)
    {
      var includeAttr := file.elements[nodes[i]].includeAttribute;
      if includeAttr.Some? && includeAttr.value != "" {
        var referencedFileName := FileNameOf(includeAttr.value);
        if EqualsIgnoreCase(referencedFileName, targetFileName) {
          assert flags[i];
          return true;
        }
      }
    }
    return false;
  }

  // ---------------------------------------------------------------------------
  // Discovery
  // ---------------------------------------------------------------------------

  /**
   * An entry of the solution: a null entry, a solution folder with its
   * items' sub-projects, or a project with its `FullName`.
   */
  datatype ProjectNode = Missing | SolutionFolder(items: seq<ProjectNode>) | Project(fullName: Path)

  /** The paths the search adds for one entry, in enumeration order. */
  function ReferencingIn(project: ProjectNode, targetProjectPath: Path, disk: Disk): seq<Path>
    decreases project
  {
    match project
    case Missing => []
    case SolutionFolder(items) => ReferencingAll(items, targetProjectPath, disk)
    case Project(fullName) =>
      if SamePath(fullName, targetProjectPath) then []
      else if fullName != [] && fullName in disk && ReferencesFile(disk[fullName], FileName(targetProjectPath)) then [fullName]
      else []
  }

  /** The paths the search adds for a sequence of entries. */
  function ReferencingAll(projects: seq<ProjectNode>, targetProjectPath: Path, disk: Disk): seq<Path>
    decreases projects
  {
    if projects == [] then []
    else
      var n := |projects| - 1;
      ReferencingAll(projects[..n], targetProjectPath, disk) + ReferencingIn(projects[n], targetProjectPath, disk)
  }

  /** Whether the entry is, or has below it, a project with this path. */
  predicate Lists(project: ProjectNode, p: Path)
    decreases project
  {
    match project
    case Missing => false
    case SolutionFolder(items) => ListsAny(items, p)
    case Project(fullName) => fullName == p
  }

  predicate ListsAny(projects: seq<ProjectNode>, p: Path)
    decreases projects
  {
    projects != [] && (ListsAny(projects[..|projects| - 1], p) || Lists(projects[|projects| - 1], p))
  }

  /**
   * A project the search reports: not the target (ignoring case), with a
   * path, a file that exists, and a reference to the target's file name.
   */
  predicate Referencing(p: Path, targetProjectPath: Path, disk: Disk)
  {
    !SamePath(p, targetProjectPath) && p != [] && p in disk && ReferencesFile(disk[p], FileName(targetProjectPath))
  }

  /** The shared `List<string>` the recursive search appends to. */
  class ProjectPathList {
    var items: seq<Path>

    constructor ()
      ensures items == []
    {
      items := [];
    }

    method Add(p: Path)
      modifies this
      ensures items == old(items) + [p]
    {
      items := items + [p];
    }
  }

  /**
   * `FindReferencesInProject`: skip a null entry, recurse into the
   * sub-projects of a solution folder, skip the target itself, and add a
   * project whose existing file references the target's file name.
   */
  method FindReferencesInProject(project: ProjectNode, targetProjectPath: Path, targetFileName: string,
                                 disk: Disk, referencingProjects: ProjectPathList)
    requires targetFileName == FileName(targetProjectPath)
    modifies referencingProjects
    ensures referencingProjects.items == old(referencingProjects.items) + ReferencingIn(project, targetProjectPath, disk)
    decreases project
  {
    match project {
      case Missing =>
        return;
      case SolutionFolder(items) =>
        for i := 0 to |items|
          invariant referencingProjects.items
                    == old(referencingProjects.items) + ReferencingAll(items[..i], targetProjectPath, disk)
        {
          assert items[..i + 1][..i] == items[..i];
          if items[i] != Missing {
            FindReferencesInProject(items[i], targetProjectPath, targetFileName, disk, referencingProjects);
          }
        }
        assert items[..|items|] == items;
      case Project(fullName) =>
        if SamePath(fullName, targetProjectPath) {
          return;
        }
        if fullName != [] && fullName in disk {
          var references := ProjectReferencesTarget(disk[fullName], targetFileName);
          if references {
            referencingProjects.Add(fullName);
          }
        }
    }
  }

  /** `FindProjectsReferencingTarget`: search every top-level entry of the solution, in order. */
  method FindProjectsReferencingTarget(solution: seq<ProjectNode>, targetProjectPath: Path, disk: Disk)
    returns (referencing: seq<Path>)
    ensures referencing == ReferencingAll(solution, targetProjectPath, disk)
  {
    var referencingProjects := new ProjectPathList();
    var targetFileName := FileName(targetProjectPath);
    for i := 0 to |solution|
      invariant referencingProjects.items == ReferencingAll(solution[..i], targetProjectPath, disk)
    {
      assert solution[..i + 1][..i] == solution[..i];
      FindReferencesInProject(solution[i], targetProjectPath, targetFileName, disk, referencingProjects);
    }
    assert solution[..|solution|] == solution;
    return referencingProjects.items;
  }

  /**
   * A path is reported for an entry exactly when a project with that path
   * sits in it (solution folders are entered, null entries are not) and it
   * qualifies; solution folders themselves are never reported.
   */
  lemma {:induction false} ReferencingInIff(project: ProjectNode, targetProjectPath: Path, disk: Disk, p: Path)
    ensures p in ReferencingIn(project, targetProjectPath, disk)
            <==> Lists(project, p) && Referencing(p, targetProjectPath, disk)
    decreases project
  {
    match project {
      case Missing =>
      case SolutionFolder(items) =>
        ReferencingAllIff(items, targetProjectPath, disk, p);
      case Project(fullName) =>
    }
  }

  lemma {:induction false} ReferencingAllIff(projects: seq<ProjectNode>, targetProjectPath: Path, disk: Disk, p: Path)
    ensures p in ReferencingAll(projects, targetProjectPath, disk)
            <==> ListsAny(projects, p) && Referencing(p, targetProjectPath, disk)
    decreases projects
  {
    if projects != [] {
      var n := |projects| - 1;
      ReferencingAllIff(projects[..n], targetProjectPath, disk, p);
      ReferencingInIff(projects[n], targetProjectPath, disk, p);
    }
  }

  /**
   * The search never reports the target (compared ignoring case), and every
   * path it reports is a project file that exists.
   */
  lemma TargetIsNeverReported(solution: seq<ProjectNode>, targetProjectPath: Path, disk: Disk)
    ensures forall p :: p in ReferencingAll(solution, targetProjectPath, disk)
                        ==> !SamePath(p, targetProjectPath) && p != [] && p in disk
  {
    forall p | p in ReferencingAll(solution, targetProjectPath, disk)
      ensures !SamePath(p, targetProjectPath) && p != [] && p in disk
    {
      ReferencingAllIff(solution, targetProjectPath, disk, p);
    }
  }

  // ---------------------------------------------------------------------------
  // Relative paths
  // ---------------------------------------------------------------------------

  /** The number of leading segments two paths share, ignoring case. */
  function CommonPrefixLength(a: Path, b: Path): (c: nat)
    ensures c <= |a| && c <= |b|
    ensures forall k :: 0 <= k < c ==> EqualsIgnoreCase(a[k], b[k])
    ensures c < |a| && c < |b| ==> !EqualsIgnoreCase(a[c], b[c])
  {
    if a == [] || b == [] || !EqualsIgnoreCase(a[0], b[0]) then 0
    else 1 + CommonPrefixLength(a[1..], b[1..])
  }

  /**
   * The segments of the relative path from a directory to a file, as
   * `Uri.MakeRelativeUri` computes it for two local paths: one `..` for each
   * directory of `fromDirectory` below the part it shares with the file's
   * directory (ignoring case), then the rest of the file's path. Paths on
   * different drives share nothing, and then the file's full path is the
   * result.
   */
  function RelativeSegments(fromDirectory: Path, toFile: Path): (r: seq<string>)
    requires toFile != []
    ensures r != [] && r[|r| - 1] == FileName(toFile)
  {
    var c := CommonPrefixLength(fromDirectory, DirectoryName(toFile));
    if c == 0 then toFile
    else seq(|fromDirectory| - c, _ => "..") + toFile[c..]
  }

  /** `GetRelativePath`: the relative segments joined with backslashes. */
  function GetRelativePath(fromDirectory: Path, toFile: Path): string
    requires toFile != []
  {
    Join(RelativeSegments(fromDirectory, toFile))
  }

  /** A root segment, such as the drive `C:`. */
  predicate IsRoot(segment: string)
  {
    segment != "" && segment[|segment| - 1] == ':'
  }

  /** A full path: a root, then names that are neither separators nor `.` or `..`. */
  predicate WellFormed(p: Path)
  {
    p != [] && IsRoot(p[0])
    && forall k :: 1 <= k < |p| ==> p[k] != "" && p[k] != "." && p[k] != ".." && NoSeparator(p[k])
  }

  /** Walk relative segments from a directory: `..` goes up, a name goes down. */
  function Walk(directory: Path, segments: seq<string>): Path
    decreases |segments|
  {
    if segments == [] then directory
    else if segments[0] == ".." then Walk(if directory == [] then [] else directory[..|directory| - 1], segments[1..])
    else Walk(directory + [segments[0]], segments[1..])
  }

  /** Resolving a path against a directory: a rooted path stands alone, any other is walked. */
  function Resolve(directory: Path, segments: seq<string>): Path
  {
    if segments != [] && IsRoot(segments[0]) then segments else Walk(directory, segments)
  }

  lemma {:induction false} WalkUp(directory: Path, n: nat, rest: seq<string>)
    requires n <= |directory|
    ensures Walk(directory, seq(n, _ => "..") + rest) == Walk(directory[..|directory| - n], rest)
  {
    if n > 0 {
      var ups := seq(n, _ => "..");
      assert (ups + rest)[0] == "..";
      assert (ups + rest)[1..] == seq(n - 1, _ => "..") + rest;
      WalkUp(directory[..|directory| - 1], n - 1, rest);
      assert directory[..|directory| - 1][..|directory| - 1 - (n - 1)] == directory[..|directory| - n];
    } else {
      assert seq(n, _ => "..") + rest == rest;
      assert directory[..|directory| - n] == directory;
    }
  }

  lemma {:induction false} WalkDown(directory: Path, names: seq<string>)
    requires forall k :: 0 <= k < |names| ==> names[k] != ".."
    ensures Walk(directory, names) == directory + names
    decreases |names|
  {
    if names != [] {
      WalkDown(directory + [names[0]], names[1..]);
      assert directory + [names[0]] + names[1..] == directory + names;
    }
  }

  /**
   * The relative path leads back to the file: resolved against the directory
   * it was computed from, it is the file's path, up to the case of the
   * segments the two share.
   */
  lemma RelativePathResolves(fromDirectory: Path, toFile: Path)
    requires WellFormed(fromDirectory) && WellFormed(toFile) && |toFile| >= 2
    ensures SamePath(Resolve(fromDirectory, RelativeSegments(fromDirectory, toFile)), toFile)
  {
    var c := CommonPrefixLength(fromDirectory, DirectoryName(toFile));
    var r := Resolve(fromDirectory, RelativeSegments(fromDirectory, toFile));
    if c == 0 {
      assert r == toFile;
    } else {
      var ups := seq(|fromDirectory| - c, _ => "..");
      var rest := toFile[c..];
      assert rest[0] == toFile[c] && !IsRoot(toFile[c]) by {
        assert toFile[c][|toFile[c]| - 1] !in {':'};
      }
      assert (ups + rest)[0] == if |ups| > 0 then ".." else rest[0];
      WalkUp(fromDirectory, |fromDirectory| - c, rest);
      WalkDown(fromDirectory[..c], rest);
      assert r == fromDirectory[..c] + rest;
    }
    forall k | 0 <= k < |toFile|
      ensures EqualsIgnoreCase(r[k], toFile[k])
    {
      EqualsIgnoreCaseIsEquivalence(toFile[k], toFile[k], toFile[k]);
      if k < c {
        EqualsIgnoreCaseIsEquivalence(fromDirectory[k], toFile[k], fromDirectory[k]);
      }
    }
  }

  /** The relative path names the file: its `Path.GetFileName` is the file's name. */
  lemma RelativePathNamesFile(fromDirectory: Path, toFile: Path)
    requires toFile != [] && NoSeparator(FileName(toFile))
    ensures FileNameOf(GetRelativePath(fromDirectory, toFile)) == FileName(toFile)
  {
    FileNameOfJoin(RelativeSegments(fromDirectory, toFile));
  }

  lemma SiblingCommonPrefix()
    ensures CommonPrefixLength(["C:", "ws", "App"], ["C:", "ws", "Bar"]) == 2
  {
    EqualsIgnoreCaseIsEquivalence("C:", "C:", "C:");
    EqualsIgnoreCaseIsEquivalence("ws", "ws", "ws");
    assert "App"[0] == 'A' && "Bar"[0] == 'B';
    assert FoldCase('A') != FoldCase('B');
    assert ["C:", "ws", "App"][1..] == ["ws", "App"] && ["ws", "App"][1..] == ["App"];
    assert ["C:", "ws", "Bar"][1..] == ["ws", "Bar"] && ["ws", "Bar"][1..] == ["Bar"];
  }

  lemma SiblingSegments()
    ensures RelativeSegments(["C:", "ws", "App"], ["C:", "ws", "Bar", "Bar.proj"]) == ["..", "Bar", "Bar.proj"]
  {
    SiblingCommonPrefix();
    assert DirectoryName(["C:", "ws", "Bar", "Bar.proj"]) == ["C:", "ws", "Bar"];
  }

  /** From `C:\ws\App` to `C:\ws\Bar\Bar.proj` the reference is `..\Bar\Bar.proj`. */
  lemma SiblingDirectoryExample()
    ensures GetRelativePath(["C:", "ws", "App"], ["C:", "ws", "Bar", "Bar.proj"]) == "..\\Bar\\Bar.proj"
  {
    SiblingSegments();
    var segments: seq<string> := ["..", "Bar", "Bar.proj"];
    assert segments[..2] == ["..", "Bar"] && segments[..2][..1] == [".."];
    assert Join(["..", "Bar"]) == "..\\Bar";
  }

  /** A project on another drive is referenced by its full path. */
  lemma OtherDriveExample()
    ensures GetRelativePath(["C:", "App"], ["D:", "Bar.proj"]) == "D:\\Bar.proj"
  {
    assert "C:"[0] == 'C' && "D:"[0] == 'D';
    assert FoldCase('C') != FoldCase('D');
  }

  // ---------------------------------------------------------------------------
  // Update
  // ---------------------------------------------------------------------------

  /** What the update makes of one element: a reference to the old file name now holds the new relative path. */
  function Retargeted(rootNamespaceUri: string, oldFileName: string, relativePath: string, e: Element): Element
  {
    if IsReferenceTo(rootNamespaceUri, oldFileName, e) then e.(includeAttribute := Some(relativePath)) else e
  }

  /** The document with every reference to the old file name pointed at the relative path. */
  function RetargetedDocument(d: Descriptor, oldFileName: string, relativePath: string): Descriptor
  {
    d.(elements := seq(|d.elements|, k requires 0 <= k < |d.elements| =>
                         Retargeted(d.rootNamespaceUri, oldFileName, relativePath, d.elements[k])))
  }

  /** The elements after the first i queried positions have been visited. */
  ghost function VisitedRetarget(d: Descriptor, oldFileName: string, relativePath: string,
                                 nodes: seq<nat>, i: nat): (r: seq<Element>)
    requires i <= |nodes| && forall t :: 0 <= t < |nodes| ==> nodes[t] < |d.elements|
    ensures |r| == |d.elements|
  {
    if i == 0 then d.elements
    else
      var n := nodes[i - 1];
      VisitedRetarget(d, oldFileName, relativePath, nodes, i - 1)[n := Retargeted(d.rootNamespaceUri, oldFileName, relativePath, d.elements[n])]
  }

  lemma {:induction false} VisitedRetargetIs(d: Descriptor, oldFileName: string, relativePath: string,
                                             nodes: seq<nat>, i: nat, j: nat)
    requires i <= |nodes| && forall t :: 0 <= t < |nodes| ==> nodes[t] < |d.elements|
    requires j < |d.elements|
    ensures VisitedRetarget(d, oldFileName, relativePath, nodes, i)[j]
            == if j in nodes[..i] then Retargeted(d.rootNamespaceUri, oldFileName, relativePath, d.elements[j]) else d.elements[j]
  {
    if i > 0 {
      VisitedRetargetIs(d, oldFileName, relativePath, nodes, i - 1, j);
      assert nodes[..i] == nodes[..i - 1] + [nodes[i - 1]];
    }
  }

  /** Whether an element's `Include` is present, non-empty and names `fileName` ignoring case. */
  predicate IncludeNames(e: Element, fileName: string)
  {
    e.includeAttribute.Some? && e.includeAttribute.value != ""
    && EqualsIgnoreCase(FileNameOf(e.includeAttribute.value), fileName)
  }

  /**
   * One step of the visit: the next queried position is still as loaded, it
   * holds a reference exactly when its `Include` names the file, and then
   * it is retargeted.
   */
  lemma RetargetStep(d: Descriptor, oldFileName: string, relativePath: string, nodes: seq<nat>, i: nat)
    requires nodes == SelectedIndices(d.rootNamespaceUri, d.elements, ProjectReference)
    requires i < |nodes|
    ensures VisitedRetarget(d, oldFileName, relativePath, nodes, i)[nodes[i]] == d.elements[nodes[i]]
    ensures ReferenceFlags(d, oldFileName, nodes)[i] == IncludeNames(d.elements[nodes[i]], oldFileName)
    ensures VisitedRetarget(d, oldFileName, relativePath, nodes, i + 1)
            == if IncludeNames(d.elements[nodes[i]], oldFileName)
               then VisitedRetarget(d, oldFileName, relativePath, nodes, i)[nodes[i] := d.elements[nodes[i]].(includeAttribute := Some(relativePath))]
               else VisitedRetarget(d, oldFileName, relativePath, nodes, i)
  {
    VisitedRetargetIs(d, oldFileName, relativePath, nodes, i, nodes[i]);
    SelectedIndicesDistinct(d.rootNamespaceUri, d.elements, ProjectReference, i);
  }

  /** Visiting every queried position is the retargeting of the whole document. */
  lemma VisitingAllIsRetarget(d: Descriptor, oldFileName: string, relativePath: string, nodes: seq<nat>)
    requires nodes == SelectedIndices(d.rootNamespaceUri, d.elements, ProjectReference)
    ensures VisitedRetarget(d, oldFileName, relativePath, nodes, |nodes|) == RetargetedDocument(d, oldFileName, relativePath).elements
  {
    var r := RetargetedDocument(d, oldFileName, relativePath).elements;
    var v := VisitedRetarget(d, oldFileName, relativePath, nodes, |nodes|);
    assert nodes[..|nodes|] == nodes;
    forall j | 0 <= j < |d.elements|
      ensures v[j] == r[j]
    {
      VisitedRetargetIs(d, oldFileName, relativePath, nodes, |nodes|, j);
      if j !in nodes && Selects(d.rootNamespaceUri, ProjectReference, d.elements[j]) {
        SelectedIndicesComplete(d.rootNamespaceUri, d.elements, ProjectReference, j);
      }
    }
  }

  /**
   * `UpdateReferencesInProject` on the loaded project file: give every
   * reference whose `Include` names the old file the relative path from the
   * project's directory to the new file, and save the document (returned
   * here) only when some reference was rewritten.
   */
  method UpdateReferencesInProject(projectFilePath: Path, file: Descriptor, oldFileName: string, newProjectPath: Path)
    returns (saved: Option<Descriptor>)
    requires projectFilePath != [] && newProjectPath != []
    ensures saved.Some? <==> ReferencesFile(file, oldFileName)
    ensures saved.Some? ==> saved.value == RetargetedDocument(file, oldFileName, GetRelativePath(DirectoryName(projectFilePath), newProjectPath))
  {
    var doc := new ProjectDocument.Load(file);
    var nodes := SelectedIndices(doc.rootNamespaceUri, doc.elements, ProjectReference);
    ghost var relativePath := GetRelativePath(DirectoryName(projectFilePath), newProjectPath);
    VisitingAllIsRetarget(file, oldFileName, relativePath, nodes);
    ghost var flags := ReferenceFlags(file, oldFileName, nodes);
    VisitingAllFindsReference(file, oldFileName, nodes);
    var modified := false;
    var projectDirectory := DirectoryName(projectFilePath);
    for i := 0 to |nodes|
      invariant doc.rootNamespaceUri == file.rootNamespaceUri
      invariant doc.elements == VisitedRetarget(file, oldFileName, relativePath, nodes, i)
      invariant modified <==> AnyUpTo(flags, i)
    {
      var n := nodes[i];
      RetargetStep(file, oldFileName, relativePath, nodes, i);
      var includeAttr := doc.elements[n].includeAttribute;
      if includeAttr.None? || includeAttr.value == "" {
        continue;
      }
      var referencedFileName := FileNameOf(includeAttr.value);
      if !EqualsIgnoreCase(referencedFileName, oldFileName) {
        continue;
      }
      var newRelativePath := GetRelativePath(projectDirectory, newProjectPath);
      doc.SetInclude(n, newRelativePath);
      modified := true;
    }
    if modified {
      saved := Some(doc.Value());
    } else {
      saved := None;
    }
  }

  /** A document without a reference to the old file name is left as it is. */
  lemma {:induction false} RetargetWithoutReference(d: Descriptor, oldFileName: string, relativePath: string)
    requires !ReferencesFile(d, oldFileName)
    ensures RetargetedDocument(d, oldFileName, relativePath) == d
  {
    var r := RetargetedDocument(d, oldFileName, relativePath);
    forall k | 0 <= k < |d.elements|
      ensures r.elements[k] == d.elements[k]
    {
      assert !IsReferenceTo(d.rootNamespaceUri, oldFileName, d.elements[k]);
    }
  }

  /**
   * After the update, the project still references the renamed project:
   * the rewritten references name the new file, so a later search for the
   * new path finds it. When the new file name differs from the old one
   * (ignoring case), no reference to the old file name is left.
   */
  lemma RetargetedReferencesNameNewFile(d: Descriptor, oldFileName: string, fromDirectory: Path, newProjectPath: Path)
    requires newProjectPath != [] && FileName(newProjectPath) != "" && NoSeparator(FileName(newProjectPath))
    requires ReferencesFile(d, oldFileName)
    ensures ReferencesFile(RetargetedDocument(d, oldFileName, GetRelativePath(fromDirectory, newProjectPath)), FileName(newProjectPath))
    ensures !EqualsIgnoreCase(FileName(newProjectPath), oldFileName)
            ==> !ReferencesFile(RetargetedDocument(d, oldFileName, GetRelativePath(fromDirectory, newProjectPath)), oldFileName)
  {
    var relativePath := GetRelativePath(fromDirectory, newProjectPath);
    var newFileName := FileName(newProjectPath);
    var r := RetargetedDocument(d, oldFileName, relativePath);
    RelativePathNamesFile(fromDirectory, newProjectPath);
    assert relativePath != "";
    var k :| 0 <= k < |d.elements| && IsReferenceTo(d.rootNamespaceUri, oldFileName, d.elements[k]);
    EqualsIgnoreCaseIsEquivalence(newFileName, newFileName, newFileName);
    assert IsReferenceTo(r.rootNamespaceUri, newFileName, r.elements[k]);
    if !EqualsIgnoreCase(newFileName, oldFileName) {
      forall j | 0 <= j < |r.elements|
        ensures !IsReferenceTo(r.rootNamespaceUri, oldFileName, r.elements[j])
      {
        if IsReferenceTo(d.rootNamespaceUri, oldFileName, d.elements[j]) {
          EqualsIgnoreCaseIsEquivalence(newFileName, newFileName, oldFileName);
        }
      }
    }
  }

  /**
   * The files after `UpdateReferencesInProject` on the existing project file
   * at `p`: it is saved, retargeted, only when it holds a reference to the
   * old file name.
   */
  function SaveReferences(disk: Disk, p: Path, oldFileName: string, newProjectPath: Path): (r: Disk)
    requires p != [] && p in disk && newProjectPath != []
    ensures r.Keys == disk.Keys
    ensures forall q :: q in disk && q != p ==> r[q] == disk[q]
  {
    if ReferencesFile(disk[p], oldFileName)
    then disk[p := RetargetedDocument(disk[p], oldFileName, GetRelativePath(DirectoryName(p), newProjectPath))]
    else disk
  }

  /**
   * The files after updating each listed project in turn, and the first
   * listed path whose file cannot be loaded (an empty path or a missing
   * file), which ends the update: the files saved before it stay saved.
   */
  function ReferenceUpdates(disk: Disk, paths: seq<Path>, oldFileName: string, newProjectPath: Path): (Disk, Option<Path>)
    requires newProjectPath != []
    decreases |paths|
  {
    if paths == [] then (disk, None)
    else
      var p := paths[0];
      if p == [] || p !in disk then (disk, Some(p))
      else
        ReferenceUpdates(SaveReferences(disk, p, oldFileName, newProjectPath), paths[1..], oldFileName, newProjectPath)
  }

  /**
   * `UpdateProjectReferences`: update each listed project, matching
   * references by the old file name only.
   */
  method UpdateProjectReferences(disk: Disk, referencingProjectPaths: seq<Path>, oldProjectPath: Path, newProjectPath: Path)
    returns (newDisk: Disk, failure: Option<Path>)
    requires newProjectPath != []
    ensures (newDisk, failure) == ReferenceUpdates(disk, referencingProjectPaths, FileName(oldProjectPath), newProjectPath)
  {
    var oldFileName := FileName(oldProjectPath);
    newDisk := disk;
    for i := 0 to |referencingProjectPaths|
      invariant ReferenceUpdates(disk, referencingProjectPaths, oldFileName, newProjectPath)
                == ReferenceUpdates(newDisk, referencingProjectPaths[i..], oldFileName, newProjectPath)
    {
      var projectPath := referencingProjectPaths[i];
      assert referencingProjectPaths[i..][1..] == referencingProjectPaths[i + 1..];
      if projectPath == [] || projectPath !in newDisk {
        return newDisk, Some(projectPath);
      }
      var saved := UpdateReferencesInProject(projectPath, newDisk[projectPath], oldFileName, newProjectPath);
      if saved.Some? {
        newDisk := newDisk[projectPath := saved.value];
      }
    }
    return newDisk, None;
  }

  /**
   * The update saves existing files only: the set of files is unchanged,
   * and a file that is not listed keeps its content.
   */
  lemma {:induction false} UpdatesTouchOnlyListed(disk: Disk, paths: seq<Path>, oldFileName: string, newProjectPath: Path, q: Path)
    requires newProjectPath != []
    ensures ReferenceUpdates(disk, paths, oldFileName, newProjectPath).0.Keys == disk.Keys
    ensures q in disk && q !in paths ==> ReferenceUpdates(disk, paths, oldFileName, newProjectPath).0[q] == disk[q]
    decreases |paths|
  {
    if paths != [] && paths[0] != [] && paths[0] in disk {
      var p := paths[0];
      var next := SaveReferences(disk, p, oldFileName, newProjectPath);
      UpdatesTouchOnlyListed(next, paths[1..], oldFileName, newProjectPath, q);
      if q !in paths {
        assert q !in paths[1..];
      }
    }
  }

  /** The update fails exactly when some listed path is empty or names no file. */
  lemma {:induction false} UpdateFailsOnMissingFile(disk: Disk, paths: seq<Path>, oldFileName: string, newProjectPath: Path)
    requires newProjectPath != []
    ensures ReferenceUpdates(disk, paths, oldFileName, newProjectPath).1.None?
            <==> forall t :: 0 <= t < |paths| ==> paths[t] != [] && paths[t] in disk
    decreases |paths|
  {
    if paths != [] && paths[0] != [] && paths[0] in disk {
      var p := paths[0];
      var next := SaveReferences(disk, p, oldFileName, newProjectPath);
      UpdateFailsOnMissingFile(next, paths[1..], oldFileName, newProjectPath);
      assert forall t :: 1 <= t < |paths| ==> paths[t] == paths[1..][t - 1];
    }
  }

  /** A failed update stops at the first listed path that is empty or names no file. */
  lemma {:induction false} UpdateStopsAtFirstMissingFile(disk: Disk, paths: seq<Path>, oldFileName: string, newProjectPath: Path, t: nat)
    requires newProjectPath != []
    requires t < |paths| && (paths[t] == [] || paths[t] !in disk)
    requires forall u :: 0 <= u < t ==> paths[u] != [] && paths[u] in disk
    ensures ReferenceUpdates(disk, paths, oldFileName, newProjectPath).1 == Some(paths[t])
    decreases t
  {
    if t > 0 {
      var p := paths[0];
      var next := SaveReferences(disk, p, oldFileName, newProjectPath);
      assert paths[1..][t - 1] == paths[t];
      UpdateStopsAtFirstMissingFile(next, paths[1..], oldFileName, newProjectPath, t - 1);
    }
  }

  /**
   * Updating the projects the search found never fails: each is a project
   * file that exists.
   */
  lemma DiscoveredProjectsUpdate(solution: seq<ProjectNode>, targetProjectPath: Path, disk: Disk, newProjectPath: Path)
    requires newProjectPath != []
    ensures ReferenceUpdates(disk, ReferencingAll(solution, targetProjectPath, disk), FileName(targetProjectPath), newProjectPath).1.None?
  {
    var paths := ReferencingAll(solution, targetProjectPath, disk);
    TargetIsNeverReported(solution, targetProjectPath, disk);
    assert forall t :: 0 <= t < |paths| ==> paths[t] in paths;
    UpdateFailsOnMissingFile(disk, paths, FileName(targetProjectPath), newProjectPath);
  }

  /**
   * When the update succeeds and lists each project once, every listed file
   * ends up with its references to the old file name pointed at the new file.
   */
  lemma {:induction false} UpdatedListedFile(disk: Disk, paths: seq<Path>, oldFileName: string, newProjectPath: Path, q: Path)
    requires newProjectPath != []
    requires forall s, t :: 0 <= s < t < |paths| ==> paths[s] != paths[t]
    requires ReferenceUpdates(disk, paths, oldFileName, newProjectPath).1.None?
    requires q in paths
    ensures q != [] && q in disk
    ensures q in ReferenceUpdates(disk, paths, oldFileName, newProjectPath).0
    ensures ReferenceUpdates(disk, paths, oldFileName, newProjectPath).0[q]
            == RetargetedDocument(disk[q], oldFileName, GetRelativePath(DirectoryName(q), newProjectPath))
    decreases |paths|
  {
    var p := paths[0];
    var next := SaveReferences(disk, p, oldFileName, newProjectPath);
    if q == p {
      assert q !in paths[1..];
      UpdatesTouchOnlyListed(next, paths[1..], oldFileName, newProjectPath, q);
      if !ReferencesFile(disk[p], oldFileName) {
        RetargetWithoutReference(disk[p], oldFileName, GetRelativePath(DirectoryName(p), newProjectPath));
      }
    } else {
      UpdatedListedFile(next, paths[1..], oldFileName, newProjectPath, q);
    }
  }
}
