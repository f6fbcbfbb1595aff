/**
 * `Services/ProjectFileService.cs`: the new paths of a renamed project file
 * and of its directory, and the edit of the `RootNamespace` and
 * `AssemblyName` elements of the project file.
 *
 * `File.Move` and `Directory.Move` are not modelled; the operations return
 * the paths they would move to. A project file is given as the document it
 * holds, and a save is returned as the document written.
 */
module ProjectFileService {
  import opened Wrappers
  import opened Text
  import opened Paths
  import opened MsBuild

  // ---------------------------------------------------------------------------
  // Paths
  // ---------------------------------------------------------------------------

  /**
   * `RenameProjectFile`: the same directory, and the new name followed by the
   * old file's extension.
   */
  function RenameProjectFile(projectFilePath: Path, newName: string): (r: Path)
    requires projectFilePath != []
    ensures r != [] && DirectoryName(r) == DirectoryName(projectFilePath)
    ensures FileName(r) == newName + Extension(FileName(projectFilePath))
  {
    DirectoryName(projectFilePath) + [newName + Extension(FileName(projectFilePath))]
  }

  /**
   * The renamed file keeps its extension: `Path.GetExtension` of the new
   * path is that of the old one, whatever dots the new name contains.
   */
  lemma RenamedFileKeepsExtension(projectFilePath: Path, newName: string)
    requires projectFilePath != []
    requires Extension(FileName(projectFilePath)) != ""
    ensures Extension(FileName(RenameProjectFile(projectFilePath, newName))) == Extension(FileName(projectFilePath))
  {
    ExtensionOfRenamed(newName, Extension(FileName(projectFilePath)));
  }

  /**
   * `RenameParentDirectoryIfMatches` on a full path (a root, at least one
   * directory or the file itself): when the project directory has a parent
   * and its name equals the old name ignoring case, the path of the file in
   * the directory renamed to the new name; otherwise the path unchanged.
   */
  function RenameParentDirectoryIfMatches(projectFilePath: Path, oldName: string, newName: string): (r: Path)
    requires |projectFilePath| >= 2
    ensures |r| == |projectFilePath| && FileName(r) == FileName(projectFilePath)
    ensures forall k :: 0 <= k < |r| && k != |r| - 2 ==> r[k] == projectFilePath[k]
    ensures r[|r| - 2] == if |projectFilePath| > 2 && EqualsIgnoreCase(projectFilePath[|r| - 2], oldName)
                          then newName else projectFilePath[|r| - 2]
  {
    var projectDirectory := DirectoryName(projectFilePath);
    if |projectDirectory| <= 1 then
      projectFilePath                               // Directory.GetParent gives null for a root
    else
      var parentDirectory := DirectoryName(projectDirectory);
      var directoryName := FileName(projectDirectory);
      if !EqualsIgnoreCase(directoryName, oldName) then projectFilePath
      else
        var newDirectoryPath := parentDirectory + [newName];
        newDirectoryPath + [FileName(projectFilePath)]
  }

  /** `/ws/Foo/Foo.proj` renamed from `Foo` to `Bar` moves to `/ws/Bar/Foo.proj`. */
  lemma DirectoryNamedAfterProjectIsRenamed()
    ensures RenameParentDirectoryIfMatches(["C:", "ws", "Foo", "Foo.proj"], "Foo", "Bar") == ["C:", "ws", "Bar", "Foo.proj"]
  {
    assert EqualsIgnoreCase("Foo", "Foo");
  }

  /** `/ws/Container/Foo.proj` stays where it is. */
  lemma DirectoryNamedOtherwiseIsKept()
    ensures RenameParentDirectoryIfMatches(["C:", "ws", "Container", "Foo.proj"], "Foo", "Bar")
            == ["C:", "ws", "Container", "Foo.proj"]
  {
    assert !EqualsIgnoreCase("Container", "Foo");
  }

  // ---------------------------------------------------------------------------
  // Element updates
  // ---------------------------------------------------------------------------

  /** An element the update of `name` rewrites: selected, with the old name as its text ignoring case. */
  predicate Matches(rootNamespaceUri: string, name: string, oldName: string, e: Element)
  {
    Selects(rootNamespaceUri, name, e) && EqualsIgnoreCase(e.text, oldName)
  }

  /** What the update of `name` makes of one element. */
  function Renamed(rootNamespaceUri: string, name: string, oldName: string, newName: string, e: Element): Element
  {
    if Matches(rootNamespaceUri, name, oldName, e) then e.(text := newName) else e
  }

  /** The document after every element called `name` that holds the old name has been given the new one. */
  function UpdatedDocument(d: Descriptor, name: string, oldName: string, newName: string): (r: Descriptor)
  {
    d.(elements := seq(|d.elements|, k requires 0 <= k < |d.elements| =>
                         Renamed(d.rootNamespaceUri, name, oldName, newName, d.elements[k])))
  }

  /** Whether some element called `name` holds the old name. */
  predicate AnyMatch(d: Descriptor, name: string, oldName: string)
  {
    exists k :: 0 <= k < |d.elements| && Matches(d.rootNamespaceUri, name, oldName, d.elements[k])
  }

  /** The elements after the first i selected positions have been visited. */
  ghost function VisitedUpdate(d: Descriptor, name: string, oldName: string, newName: string,
                               nodes: seq<nat>, i: nat): (r: seq<Element>)
    requires i <= |nodes| && forall t :: 0 <= t < |nodes| ==> nodes[t] < |d.elements|
    ensures |r| == |d.elements|
  {
    if i == 0 then d.elements
    else
      var n := nodes[i - 1];
      VisitedUpdate(d, name, oldName, newName, nodes, i - 1)[n := Renamed(d.rootNamespaceUri, name, oldName, newName, d.elements[n])]
  }

  /** Whether one of the first i selected positions holds a match. */
  ghost predicate VisitedMatch(d: Descriptor, name: string, oldName: string, nodes: seq<nat>, i: nat)
    requires i <= |nodes| && forall t :: 0 <= t < |nodes| ==> nodes[t] < |d.elements|
  {
    i > 0 && (VisitedMatch(d, name, oldName, nodes, i - 1) || Matches(d.rootNamespaceUri, name, oldName, d.elements[nodes[i - 1]]))
  }

  lemma {:induction false} VisitedMatchIs(d: Descriptor, name: string, oldName: string, nodes: seq<nat>, i: nat)
    requires i <= |nodes| && forall t :: 0 <= t < |nodes| ==> nodes[t] < |d.elements|
    ensures VisitedMatch(d, name, oldName, nodes, i)
            <==> exists t :: 0 <= t < i && Matches(d.rootNamespaceUri, name, oldName, d.elements[nodes[t]])
  {
    if i > 0 {
      VisitedMatchIs(d, name, oldName, nodes, i - 1);
    }
  }

  /** After visiting the first i selected positions, each element is renamed exactly when it was visited. */
  lemma {:induction false} VisitedUpdateIs(d: Descriptor, name: string, oldName: string, newName: string,
                                           nodes: seq<nat>, i: nat, j: nat)
    requires i <= |nodes| && forall t :: 0 <= t < |nodes| ==> nodes[t] < |d.elements|
    requires j < |d.elements|
    ensures VisitedUpdate(d, name, oldName, newName, nodes, i)[j]
            == if j in nodes[..i] then Renamed(d.rootNamespaceUri, name, oldName, newName, d.elements[j]) else d.elements[j]
  {
    if i > 0 {
      VisitedUpdateIs(d, name, oldName, newName, nodes, i - 1, j);
      assert nodes[..i] == nodes[..i - 1] + [nodes[i - 1]];
    }
  }

  /**
   * One pass of the loop: the element at the i-th selected position is
   * still the original one, its text is the old name exactly when it
   * matches, and then it is given the new name.
   */
  lemma UpdateStep(d: Descriptor, name: string, oldName: string, newName: string, nodes: seq<nat>, i: nat)
    requires nodes == SelectedIndices(d.rootNamespaceUri, d.elements, name)
    requires i < |nodes|
    ensures VisitedUpdate(d, name, oldName, newName, nodes, i)[nodes[i]] == d.elements[nodes[i]]
    ensures Matches(d.rootNamespaceUri, name, oldName, d.elements[nodes[i]])
            == EqualsIgnoreCase(d.elements[nodes[i]].text, oldName)
    ensures VisitedUpdate(d, name, oldName, newName, nodes, i + 1)
            == if EqualsIgnoreCase(d.elements[nodes[i]].text, oldName)
               then VisitedUpdate(d, name, oldName, newName, nodes, i)[nodes[i] := d.elements[nodes[i]].(text := newName)]
               else VisitedUpdate(d, name, oldName, newName, nodes, i)
  {
    VisitedUpdateIs(d, name, oldName, newName, nodes, i, nodes[i]);
    SelectedIndicesDistinct(d.rootNamespaceUri, d.elements, name, i);
  }

  /** Visiting every selected position is the update of the whole document. */
  lemma VisitingAllIsUpdate(d: Descriptor, name: string, oldName: string, newName: string, nodes: seq<nat>)
    requires nodes == SelectedIndices(d.rootNamespaceUri, d.elements, name)
    ensures VisitedUpdate(d, name, oldName, newName, nodes, |nodes|) == UpdatedDocument(d, name, oldName, newName).elements
  {
    var r := UpdatedDocument(d, name, oldName, newName).elements;
    var v := VisitedUpdate(d, name, oldName, newName, nodes, |nodes|);
    assert nodes[..|nodes|] == nodes;
    forall j | 0 <= j < |d.elements|
      ensures v[j] == r[j]
    {
      VisitedUpdateIs(d, name, oldName, newName, nodes, |nodes|, j);
      if j !in nodes {
        NotSelectedIsKept(d, name, oldName, newName, nodes, j);
      }
    }
  }

  lemma NotSelectedIsKept(d: Descriptor, name: string, oldName: string, newName: string, nodes: seq<nat>, j: nat)
    requires nodes == SelectedIndices(d.rootNamespaceUri, d.elements, name)
    requires j < |d.elements| && j !in nodes
    ensures Renamed(d.rootNamespaceUri, name, oldName, newName, d.elements[j]) == d.elements[j]
  {
    if Selects(d.rootNamespaceUri, name, d.elements[j]) {
      SelectedIndicesComplete(d.rootNamespaceUri, d.elements, name, j);
    }
  }

  /** Some selected position holds a match exactly when some element matches. */
  lemma VisitingAllFindsMatch(d: Descriptor, name: string, oldName: string, nodes: seq<nat>)
    requires nodes == SelectedIndices(d.rootNamespaceUri, d.elements, name)
    ensures VisitedMatch(d, name, oldName, nodes, |nodes|) <==> AnyMatch(d, name, oldName)
  {
    VisitedMatchIs(d, name, oldName, nodes, |nodes|);
    if AnyMatch(d, name, oldName) {
      var k :| 0 <= k < |d.elements| && Matches(d.rootNamespaceUri, name, oldName, d.elements[k]);
      SelectedIndicesComplete(d.rootNamespaceUri, d.elements, name, k);
      var t :| 0 <= t < |nodes| && nodes[t] == k;
    }
  }

  /**
   * `UpdateElement`: query the elements called `name` in the namespace the
   * root element uses, give each whose text is the old name (ignoring case)
   * the new name, and report whether any did.
   */
  method UpdateElement(doc: ProjectDocument, name: string, oldName: string, newName: string) returns (modified: bool)
    modifies doc
    ensures doc.Value() == UpdatedDocument(old(doc.Value()), name, oldName, newName)
    ensures modified <==> AnyMatch(old(doc.Value()), name, oldName)
  {
    ghost var original := doc.Value();
    var nodes := SelectedIndices(doc.rootNamespaceUri, doc.elements, name);
    if |nodes| == 0 {
      VisitingAllIsUpdate(original, name, oldName, newName, nodes);
      VisitingAllFindsMatch(original, name, oldName, nodes);
      return false;
    }
    modified := false;
    for i := 0 to |nodes|
      invariant doc.elements == VisitedUpdate(original, name, oldName, newName, nodes, i)
      invariant modified <==> VisitedMatch(original, name, oldName, nodes, i)
    {
      var n := nodes[i];
      UpdateStep(original, name, oldName, newName, nodes, i);
      if EqualsIgnoreCase(doc.elements[n].text, oldName) {
        doc.SetText(n, newName);
        modified := true;
      }
    }
    VisitingAllIsUpdate(original, name, oldName, newName, nodes);
    VisitingAllFindsMatch(original, name, oldName, nodes);
  }

  /** The update touches no element the query for `name` does not return. */
  lemma UpdateTouchesOnlySelected(d: Descriptor, name: string, oldName: string, newName: string, k: nat)
    requires k < |d.elements| && !Selects(d.rootNamespaceUri, name, d.elements[k])
    ensures UpdatedDocument(d, name, oldName, newName).elements[k] == d.elements[k]
  {
  }

  /** An update that finds no match leaves the document as it is. */
  lemma {:induction false} UpdateWithoutMatch(d: Descriptor, name: string, oldName: string, newName: string)
    requires !AnyMatch(d, name, oldName)
    ensures UpdatedDocument(d, name, oldName, newName) == d
  {
    var r := UpdatedDocument(d, name, oldName, newName);
    forall k | 0 <= k < |d.elements|
      ensures r.elements[k] == d.elements[k]
    {
      assert !Matches(d.rootNamespaceUri, name, oldName, d.elements[k]);
    }
  }

  /**
   * When the new name is not the old one ignoring case, an update that finds
   * a match changes the document, and afterwards no element called `name`
   * holds the old name.
   */
  lemma UpdateRemovesOldName(d: Descriptor, name: string, oldName: string, newName: string)
    requires !EqualsIgnoreCase(newName, oldName)
    ensures AnyMatch(d, name, oldName) ==> UpdatedDocument(d, name, oldName, newName) != d
    ensures !AnyMatch(UpdatedDocument(d, name, oldName, newName), name, oldName)
  {
    var r := UpdatedDocument(d, name, oldName, newName);
    if AnyMatch(d, name, oldName) {
      var k :| 0 <= k < |d.elements| && Matches(d.rootNamespaceUri, name, oldName, d.elements[k]);
      assert r.elements[k].text == newName;
    }
  }

  /** Updating twice is updating once. */
  lemma UpdateIsIdempotent(d: Descriptor, name: string, oldName: string, newName: string)
    ensures var once := UpdatedDocument(d, name, oldName, newName);
            UpdatedDocument(once, name, oldName, newName) == once
  {
    var once := UpdatedDocument(d, name, oldName, newName);
    var twice := UpdatedDocument(once, name, oldName, newName);
    forall k | 0 <= k < |d.elements|
      ensures twice.elements[k] == once.elements[k]
    {
      if Matches(d.rootNamespaceUri, name, oldName, d.elements[k]) {
        assert once.elements[k] == d.elements[k].(text := newName);
      } else {
        assert once.elements[k] == d.elements[k];
      }
    }
  }

  // ---------------------------------------------------------------------------
  // The project file
  // ---------------------------------------------------------------------------

  const RootNamespace: string := "RootNamespace"
  const AssemblyName: string := "AssemblyName"

  /** The project file after both elements have been updated, in the source's order. */
  function ProjectFileUpdate(d: Descriptor, oldName: string, newName: string): Descriptor
  {
    UpdatedDocument(UpdatedDocument(d, RootNamespace, oldName, newName), AssemblyName, oldName, newName)
  }

  /** Updating one element name does not change which elements of another name match. */
  lemma UpdateKeepsOtherMatches(d: Descriptor, name: string, other: string, oldName: string, newName: string)
    requires name != other
    ensures AnyMatch(UpdatedDocument(d, name, oldName, newName), other, oldName) <==> AnyMatch(d, other, oldName)
  {
    var r := UpdatedDocument(d, name, oldName, newName);
    if AnyMatch(d, other, oldName) {
      var k :| 0 <= k < |d.elements| && Matches(d.rootNamespaceUri, other, oldName, d.elements[k]);
      assert r.elements[k] == d.elements[k];
    }
    if AnyMatch(r, other, oldName) {
      var k :| 0 <= k < |r.elements| && Matches(r.rootNamespaceUri, other, oldName, r.elements[k]);
      assert r.elements[k] == d.elements[k];
    }
  }

  /**
   * `UpdateProjectFile`: load the document, update `RootNamespace` and then
   * `AssemblyName` (both always run), and save when either reported a match.
   */
  method UpdateProjectFile(file: Descriptor, oldName: string, newName: string) returns (modified: bool, saved: Option<Descriptor>)
    ensures modified <==> AnyMatch(file, RootNamespace, oldName) || AnyMatch(file, AssemblyName, oldName)
    ensures saved.Some? <==> modified
    ensures saved.Some? ==> saved.value == ProjectFileUpdate(file, oldName, newName)
  {
    var doc := new ProjectDocument.Load(file);
    modified := false;
    var rootNamespaceModified := UpdateElement(doc, RootNamespace, oldName, newName);
    modified := modified || rootNamespaceModified;
    var assemblyNameModified := UpdateElement(doc, AssemblyName, oldName, newName);
    modified := modified || assemblyNameModified;
    UpdateKeepsOtherMatches(file, RootNamespace, AssemblyName, oldName, newName);
    if modified {
      saved := Some(doc.Value());
    } else {
      saved := None;
    }
  }

  /**
   * With a new name that differs from the old one ignoring case (as the
   * rename dialog guarantees), the file is saved exactly when its content
   * changes, and afterwards neither element holds the old name.
   */
  lemma ProjectFileSavedIffChanged(file: Descriptor, oldName: string, newName: string)
    requires !EqualsIgnoreCase(newName, oldName)
    ensures ProjectFileUpdate(file, oldName, newName) != file
            <==> AnyMatch(file, RootNamespace, oldName) || AnyMatch(file, AssemblyName, oldName)
    ensures !AnyMatch(ProjectFileUpdate(file, oldName, newName), RootNamespace, oldName)
    ensures !AnyMatch(ProjectFileUpdate(file, oldName, newName), AssemblyName, oldName)
  {
    var first := UpdatedDocument(file, RootNamespace, oldName, newName);
    var second := UpdatedDocument(first, AssemblyName, oldName, newName);
    UpdateKeepsOtherMatches(file, RootNamespace, AssemblyName, oldName, newName);
    UpdateKeepsOtherMatches(first, AssemblyName, RootNamespace, oldName, newName);
    UpdateRemovesOldName(file, RootNamespace, oldName, newName);
    UpdateRemovesOldName(first, AssemblyName, oldName, newName);
    if AnyMatch(file, RootNamespace, oldName) {
      var k :| 0 <= k < |file.elements| && Matches(file.rootNamespaceUri, RootNamespace, oldName, file.elements[k]);
      assert first.elements[k].text == newName;
      assert second.elements[k] == first.elements[k];
    } else if AnyMatch(file, AssemblyName, oldName) {
      UpdateWithoutMatch(file, RootNamespace, oldName, newName);
    } else {
      UpdateWithoutMatch(file, RootNamespace, oldName, newName);
      UpdateWithoutMatch(first, AssemblyName, oldName, newName);
    }
  }
}
