# ProjectRenamifier services, modelled in Dafny

This project models the core of ProjectRenamifier, a Visual Studio extension
that renames a C# project. The modelled core is the work the extension does
on files and on its two dialogs:

- **`SourceFileService`** (`source_file_service.dfy`): rewrites `namespace`
  declarations of the old project name with two regular expressions, a
  block-scoped rule and then a file-scoped rule, and writes a file back in
  the encoding its byte-order mark was read as. The regular expressions are
  a hand-written left-to-right scanner whose match decision is proved equal
  to the patterns read as plain logical statements (`MatchAtIsRegexMatch`).
- **`ProjectFileService`** (`project_file_service.dfy`): the new path of the
  renamed project file and of its directory, and the in-place update of the
  `RootNamespace` and `AssemblyName` elements of the project file.
- **`ProjectReferenceService`** (`project_reference_service.dfy`): the search
  of the solution tree for projects that reference the renamed project, the
  relative path from a referencing project to the new file, and the
  rewriting of the `ProjectReference` elements.
- **`RenameProjectDialog`** (`rename_project_dialog.dfy`): validation of the
  proposed name, and when OK is enabled.
- **`RenameProgress`** (`rename_progress_dialog.dfy`): the eleven progress
  steps and how `StartStep`, `CompleteStep` and `FailStep` change them.

Supporting modules:

- `Text`: ASCII character classes, case folding and `String.Trim`.
- `Paths`: paths as sequences of segments, with `GetFileName`,
  `GetDirectoryName`, `GetExtension` and joining.
- `MsBuild`: a project file as its elements, the `SelectNodes` queries, and
  an `XmlDocument` class whose elements are edited in place.
- `Wrappers`: `Option`.

The file system is an input: source files are given with their bytes and
decoded text, and project files as documents in a map from path to
document. Writes and saves are outputs: the text or document written, or
the new map. Objects that the source changes in place are Dafny classes:
the loaded `XmlDocument`, the shared result list of the reference search,
and the progress steps. Their methods are specified by the values they
leave behind, and the lemmas are stated on those values.

### Where the code differs from the intended behaviour

The model follows the code in each case below.

- `UpdateElement` reports that an element *matched* the old name, not that
  its text changed. A match whose text already equals the new name still
  sets `modified`, and the project file is then saved unchanged.
  `ProjectFileSavedIffChanged` shows that "saved exactly when changed" holds
  once the new name differs from the old one ignoring case. The rename
  dialog guarantees that.
- The intended behaviour is that a rewrite keeps the file's encoding. Under
  `DetectEncoding`'s rules, a UTF-16 LE file is read back as UTF-32 when it
  is empty after its signature or its first code unit is zero. A file
  without a signature is misread when its text starts like a signature
  (`WrittenEncodingReadsBack`, `ShortUtf16SignatureReadsAsUtf32`).
- The intended behaviour is that the relative path resolves back to
  exactly the new path. `Uri.MakeRelativeUri` compares the shared leading directories
  ignoring case and keeps the referencing project's spelling of them. The
  path therefore resolves to the new path only up to the case of those
  segments (`RelativePathResolves`). A project on another drive gets the
  full path (`OtherDriveExample`).
- The intended behaviour is that a referencing file that vanished does not
  stop the update of the others. In the code, the load exception leaves the `foreach`
  of `UpdateProjectReferences`. The update stops at that file, and the files
  saved before it stay saved (`UpdateStopsAtFirstMissingFile`).
- The two namespace rules run one after the other. When the new name starts
  with the old name and a dot, the file-scoped rule finds the old name again
  in the block rule's output and rewrites it a second time.
  `NewNameExtendingOldIsRewrittenTwice` shows this: renaming `A` to `A.C`
  turns `namespace A.B;` into `namespace A.C.C.B;`.

## Model

Source paths are relative to the repository root.

| member | source | states |
|---|---|---|
| SourceFileService.DetectEncoding | src/CodingWithCalvin.ProjectRenamifier/Services/SourceFileService.cs:77-106 | Each encoding is returned exactly when the file's first bytes (zero-padded to four) carry its signature. `FF FE 00 00` wins over `FF FE`, and anything else is UTF-8 without a signature. |
| SourceFileService.WrittenEncodingReadsBack | src/CodingWithCalvin.ProjectRenamifier/Services/SourceFileService.cs:51-68 | A file written with an encoding's preamble reads back as that encoding, under two conditions. UTF-16 LE text must not start with a zero code unit. Signature-less text must not start like a signature. |
| SourceFileService.ShortUtf16SignatureReadsAsUtf32 | src/CodingWithCalvin.ProjectRenamifier/Services/SourceFileService.cs:80-94 | A file that is only `FF FE` is classified as UTF-32, because the unread bytes of the buffer stay zero. |
| SourceFileService.BlockTailEndIsTailMatch | src/CodingWithCalvin.ProjectRenamifier/Services/SourceFileService.cs:57 | The scanner finds an end for `(\s*[\{\r\n]\|\.\|\s*$)` exactly when that group can match there. |
| SourceFileService.FileScopedTailEndIsTailMatch | src/CodingWithCalvin.ProjectRenamifier/Services/SourceFileService.cs:62 | The scanner finds an end for `(\.[\w.]*)?(\s*;)` exactly when that group can match there. |
| SourceFileService.IdentifierStartIsDeterminate | src/CodingWithCalvin.ProjectRenamifier/Services/SourceFileService.cs:57 | After `\bnamespace`, `\s+` followed by a valid old name can only end where the whole run of whitespace ends. |
| SourceFileService.MatchAtIsSound | src/CodingWithCalvin.ProjectRenamifier/Services/SourceFileService.cs:57-63 | Every match the scanner reports is a match of the rule's pattern at that position. |
| SourceFileService.MatchAtIsComplete | src/CodingWithCalvin.ProjectRenamifier/Services/SourceFileService.cs:57-63 | Wherever the rule's pattern can match, the scanner reports a match. |
| SourceFileService.MatchAtIsRegexMatch | src/CodingWithCalvin.ProjectRenamifier/Services/SourceFileService.cs:57-63 | The scanner matches at a position if and only if the pattern can match there. |
| SourceFileService.MatchedNameIsWholeWord | src/CodingWithCalvin.ProjectRenamifier/Services/SourceFileService.cs:57-63 | A match never starts inside a word, and the matched identifier is never followed by a word character. So `namespace OldName` is not a declaration of `Old`. |
| SourceFileService.ReplaceLength | src/CodingWithCalvin.ProjectRenamifier/Services/SourceFileService.cs:58 | One replacement pass changes the text's length by the number of matches times the difference between the name lengths. |
| SourceFileService.ReplaceWithSameName | src/CodingWithCalvin.ProjectRenamifier/Services/SourceFileService.cs:58 | Replacing the old name by itself gives the text back. |
| SourceFileService.ReplaceWithoutMatch | src/CodingWithCalvin.ProjectRenamifier/Services/SourceFileService.cs:58 | A pass without a match leaves the text as it is. |
| SourceFileService.ReplaceDiffers | src/CodingWithCalvin.ProjectRenamifier/Services/SourceFileService.cs:58 | With two different names of equal length, a pass with a match changes the text. |
| SourceFileService.ReplaceChangesIff | src/CodingWithCalvin.ProjectRenamifier/Services/SourceFileService.cs:58 | A pass leaves the text unchanged exactly when the names are equal or nothing matches. |
| SourceFileService.UntouchedWithoutDeclarations | src/CodingWithCalvin.ProjectRenamifier/Services/SourceFileService.cs:57-63 | A text in which neither rule matches is not changed by the two passes. |
| SourceFileService.RewriteWithSameName | src/CodingWithCalvin.ProjectRenamifier/Services/SourceFileService.cs:57-63 | Renaming a namespace to itself leaves every text unchanged. |
| SourceFileService.BlockRuleOnDottedDeclaration | src/CodingWithCalvin.ProjectRenamifier/Services/SourceFileService.cs:55-58 | The block rule rewrites the `Old.` prefix of a nested declaration: `namespace A.B;` becomes `namespace A.C.B;`. |
| SourceFileService.FileScopedRuleOnRewrittenDeclaration | src/CodingWithCalvin.ProjectRenamifier/Services/SourceFileService.cs:60-63 | The file-scoped rule matches the block rule's output again: `namespace A.C.B;` becomes `namespace A.C.C.B;`. |
| SourceFileService.NewNameExtendingOldIsRewrittenTwice | src/CodingWithCalvin.ProjectRenamifier/Services/SourceFileService.cs:57-63 | Because the rules run in sequence, renaming `A` to `A.C` rewrites `namespace A.B;` twice. |
| SourceFileService.RewriteLength | src/CodingWithCalvin.ProjectRenamifier/Services/SourceFileService.cs:57-63 | Across both passes, each rewritten declaration changes the length by the difference between the names. |
| SourceFileService.RewriteChangesIff | src/CodingWithCalvin.ProjectRenamifier/Services/SourceFileService.cs:57-65 | When the names differ in length, the text changes if and only if some declaration is rewritten. |
| SourceFileService.UntouchedWithoutRewrites | src/CodingWithCalvin.ProjectRenamifier/Services/SourceFileService.cs:57-65 | When neither pass rewrites a declaration, the text is unchanged. |
| SourceFileService.UpdateNamespacesInFile | src/CodingWithCalvin.ProjectRenamifier/Services/SourceFileService.cs:48-72 | Writes the rewritten text in the detected encoding exactly when it differs from the original, and returns whether it wrote. |
| SourceFileService.FileUpdateWithSameName | src/CodingWithCalvin.ProjectRenamifier/Services/SourceFileService.cs:65-71 | Renaming to the same name writes nothing. |
| SourceFileService.FileUpdateWithoutDeclarations | src/CodingWithCalvin.ProjectRenamifier/Services/SourceFileService.cs:65-71 | A file with no declaration to rewrite is not written. |
| SourceFileService.FileUpdateWritesRewrites | src/CodingWithCalvin.ProjectRenamifier/Services/SourceFileService.cs:51-68 | When the names differ in length, a file is written exactly when a declaration in it is rewritten, and in the encoding its signature was read as. |
| SourceFileService.UpdateNamespacesInProject | src/CodingWithCalvin.ProjectRenamifier/Services/SourceFileService.cs:19-39 | Does nothing when the project path has no directory. Otherwise updates every file in enumeration order and returns the number of files written. |
| SourceFileService.NoFileWrittenWithSameName | src/CodingWithCalvin.ProjectRenamifier/Services/SourceFileService.cs:28-38 | Renaming to the same name gives a count of zero. |
| Text.Trim | src/CodingWithCalvin.ProjectRenamifier/Dialogs/RenameProjectDialog.xaml.cs:11 | `String.Trim`: the result is the text between the leading and trailing whitespace, and it neither starts nor ends with whitespace. It is empty exactly when the text is all whitespace. |
| Text.TrimIdempotent | src/CodingWithCalvin.ProjectRenamifier/Dialogs/RenameProjectDialog.xaml.cs:11 | Trimming twice is trimming once. |
| Text.EqualsIgnoreCaseIsEquivalence | src/CodingWithCalvin.ProjectRenamifier/Services/ProjectReferenceService.cs:60 | `OrdinalIgnoreCase` equality is reflexive, symmetric and transitive. |
| Paths.DirectoryName | src/CodingWithCalvin.ProjectRenamifier/Services/ProjectFileService.cs:19 | `Path.GetDirectoryName`: the path is its directory followed by its file name. |
| Paths.Extension | src/CodingWithCalvin.ProjectRenamifier/Services/ProjectFileService.cs:20 | `Path.GetExtension`: empty, or a suffix of the name that starts at its last dot and has no other dot. It is empty exactly when there is no dot or the dot is last. |
| Paths.ExtensionOfRenamed | src/CodingWithCalvin.ProjectRenamifier/Services/ProjectFileService.cs:20-21 | Any name followed by an extension has that extension. |
| Paths.FileNameOf | src/CodingWithCalvin.ProjectRenamifier/Services/ProjectReferenceService.cs:108 | `Path.GetFileName` of text: the longest suffix with no separator, which follows a separator unless it is the whole text. |
| Paths.FileNameOfJoin | src/CodingWithCalvin.ProjectRenamifier/Services/ProjectReferenceService.cs:204 | The file name of segments joined by backslashes is the last segment. |
| MsBuild.QueryNamespace | src/CodingWithCalvin.ProjectRenamifier/Services/ProjectFileService.cs:95-110 | The query uses the MSBuild namespace exactly when the root element is in it, and no namespace otherwise. |
| MsBuild.SelectedIndices | src/CodingWithCalvin.ProjectRenamifier/Services/ProjectFileService.cs:105-109 | `SelectNodes` returns only elements with that local name in the query's namespace. |
| MsBuild.SelectedIndicesComplete | src/CodingWithCalvin.ProjectRenamifier/Services/ProjectFileService.cs:105-109 | `SelectNodes` returns every such element. |
| MsBuild.SelectedIndicesIncreasing | src/CodingWithCalvin.ProjectRenamifier/Services/ProjectFileService.cs:105-109 | `SelectNodes` returns elements in document order, so each at most once. |
| MsBuild.SelectedIndicesDistinct | src/CodingWithCalvin.ProjectRenamifier/Services/ProjectFileService.cs:118 | No element is visited twice by the `foreach`. |
| MsBuild.ProjectDocument.Load | src/CodingWithCalvin.ProjectRenamifier/Services/ProjectFileService.cs:72-74 | The loaded document holds the file's content. |
| MsBuild.ProjectDocument.SetText | src/CodingWithCalvin.ProjectRenamifier/Services/ProjectFileService.cs:122 | Setting `InnerText` changes that element's text and nothing else. |
| MsBuild.ProjectDocument.SetInclude | src/CodingWithCalvin.ProjectRenamifier/Services/ProjectReferenceService.cs:183 | Setting the `Include` value changes that attribute and nothing else. |
| ProjectFileService.RenameProjectFile | src/CodingWithCalvin.ProjectRenamifier/Services/ProjectFileService.cs:17-27 | The new path is in the same directory and is named the new name plus the old file's extension. |
| ProjectFileService.RenamedFileKeepsExtension | src/CodingWithCalvin.ProjectRenamifier/Services/ProjectFileService.cs:19-22 | The renamed file has the old extension, whatever dots the new name contains. |
| ProjectFileService.RenameParentDirectoryIfMatches | src/CodingWithCalvin.ProjectRenamifier/Services/ProjectFileService.cs:36-60 | Only the project directory's segment changes. It becomes the new name exactly when the directory has a parent and its name equals the old name ignoring case; the file name is kept. |
| ProjectFileService.DirectoryNamedAfterProjectIsRenamed | src/CodingWithCalvin.ProjectRenamifier/Services/ProjectFileService.cs:46-59 | `C:\ws\Foo\Foo.proj` renamed from `Foo` to `Bar` moves to `C:\ws\Bar\Foo.proj`. |
| ProjectFileService.DirectoryNamedOtherwiseIsKept | src/CodingWithCalvin.ProjectRenamifier/Services/ProjectFileService.cs:48-52 | A directory named otherwise keeps the path as it is. |
| ProjectFileService.UpdateElement | src/CodingWithCalvin.ProjectRenamifier/Services/ProjectFileService.cs:92-128 | The document afterwards is the reference update, in which every selected element whose text equals the old name ignoring case gets the new name. Returns whether any element matched. |
| ProjectFileService.UpdateStep | src/CodingWithCalvin.ProjectRenamifier/Services/ProjectFileService.cs:118-125 | Each pass of the loop sees the original element and renames it exactly when its text is the old name. |
| ProjectFileService.VisitingAllIsUpdate | src/CodingWithCalvin.ProjectRenamifier/Services/ProjectFileService.cs:118-125 | Visiting every selected element in turn gives the reference update. |
| ProjectFileService.VisitingAllFindsMatch | src/CodingWithCalvin.ProjectRenamifier/Services/ProjectFileService.cs:117-127 | The loop sees a match exactly when some element matches. |
| ProjectFileService.UpdateTouchesOnlySelected | src/CodingWithCalvin.ProjectRenamifier/Services/ProjectFileService.cs:99-110 | Elements the query does not return are never changed. |
| ProjectFileService.UpdateWithoutMatch | src/CodingWithCalvin.ProjectRenamifier/Services/ProjectFileService.cs:112-127 | Without a match, the document is unchanged. |
| ProjectFileService.UpdateRemovesOldName | src/CodingWithCalvin.ProjectRenamifier/Services/ProjectFileService.cs:118-125 | If the new name differs from the old one ignoring case, a match changes the document, and afterwards no selected element holds the old name. |
| ProjectFileService.UpdateIsIdempotent | src/CodingWithCalvin.ProjectRenamifier/Services/ProjectFileService.cs:118-125 | Updating twice is updating once. |
| ProjectFileService.UpdateKeepsOtherMatches | src/CodingWithCalvin.ProjectRenamifier/Services/ProjectFileService.cs:78-79 | Updating `RootNamespace` does not change which `AssemblyName` elements match. |
| ProjectFileService.UpdateProjectFile | src/CodingWithCalvin.ProjectRenamifier/Services/ProjectFileService.cs:70-87 | Reports a change exactly when either element kind matched. It saves then, and only then, with both updates applied in order. |
| ProjectFileService.ProjectFileSavedIffChanged | src/CodingWithCalvin.ProjectRenamifier/Services/ProjectFileService.cs:76-86 | With a new name that differs ignoring case, the content changes exactly when something matched, and neither element holds the old name afterwards. |
| ProjectReferenceService.FlagsFindReference | src/CodingWithCalvin.ProjectRenamifier/Services/ProjectReferenceService.cs:103-114 | Some queried node's non-empty `Include` names the target file exactly when the document references it. |
| ProjectReferenceService.VisitingAllFindsReference | src/CodingWithCalvin.ProjectRenamifier/Services/ProjectReferenceService.cs:103-116 | Visiting every queried node finds a reference exactly when the document has one. |
| ProjectReferenceService.ProjectReferencesTarget | src/CodingWithCalvin.ProjectRenamifier/Services/ProjectReferenceService.cs:78-117 | Returns true if and only if some `ProjectReference` has a non-empty `Include` whose file name equals the target's ignoring case. |
| ProjectReferenceService.ProjectPathList.constructor | src/CodingWithCalvin.ProjectRenamifier/Services/ProjectReferenceService.cs:23 | The result list starts empty. |
| ProjectReferenceService.ProjectPathList.Add | src/CodingWithCalvin.ProjectRenamifier/Services/ProjectReferenceService.cs:70 | `Add` appends. |
| ProjectReferenceService.FindReferencesInProject | src/CodingWithCalvin.ProjectRenamifier/Services/ProjectReferenceService.cs:37-73 | Appends to the shared list exactly the paths the search defines for the entry, in order. |
| ProjectReferenceService.FindProjectsReferencingTarget | src/CodingWithCalvin.ProjectRenamifier/Services/ProjectReferenceService.cs:19-32 | Returns the paths found for every top-level entry, in order. |
| ProjectReferenceService.ReferencingInIff | src/CodingWithCalvin.ProjectRenamifier/Services/ProjectReferenceService.cs:41-72 | A path is reported for an entry exactly when a project with it sits in the entry or its solution folders and qualifies. It qualifies when it is not the target ignoring case, is non-empty, exists and references the target's file name. |
| ProjectReferenceService.ReferencingAllIff | src/CodingWithCalvin.ProjectRenamifier/Services/ProjectReferenceService.cs:26-29 | The same for a sequence of entries. |
| ProjectReferenceService.TargetIsNeverReported | src/CodingWithCalvin.ProjectRenamifier/Services/ProjectReferenceService.cs:59-72 | The target is never reported, and every reported path is an existing project file. |
| ProjectReferenceService.CommonPrefixLength | src/CodingWithCalvin.ProjectRenamifier/Services/ProjectReferenceService.cs:198-201 | The number of leading segments the two paths share ignoring case: all before it agree, and the next pair does not. |
| ProjectReferenceService.RelativeSegments | src/CodingWithCalvin.ProjectRenamifier/Services/ProjectReferenceService.cs:196-205 | The relative path always ends with the target's file name. |
| ProjectReferenceService.RelativePathResolves | src/CodingWithCalvin.ProjectRenamifier/Services/ProjectReferenceService.cs:196-205 | Resolving the relative path against the directory it was computed from gives the target path, up to the case of shared segments. |
| ProjectReferenceService.RelativePathNamesFile | src/CodingWithCalvin.ProjectRenamifier/Services/ProjectReferenceService.cs:175-183 | `Path.GetFileName` of the written relative path is the new file's name, so a later search for the new file finds the reference. |
| ProjectReferenceService.SiblingDirectoryExample | src/CodingWithCalvin.ProjectRenamifier/Services/ProjectReferenceService.cs:196-205 | From `C:\ws\App` to `C:\ws\Bar\Bar.proj` the path is `..\Bar\Bar.proj`. |
| ProjectReferenceService.OtherDriveExample | src/CodingWithCalvin.ProjectRenamifier/Services/ProjectReferenceService.cs:196-205 | From `C:\App` to `D:\Bar.proj` the path is the full `D:\Bar.proj`. |
| ProjectReferenceService.RetargetStep | src/CodingWithCalvin.ProjectRenamifier/Services/ProjectReferenceService.cs:167-185 | Each pass of the loop sees the original node and retargets it exactly when its `Include` names the old file. |
| ProjectReferenceService.VisitingAllIsRetarget | src/CodingWithCalvin.ProjectRenamifier/Services/ProjectReferenceService.cs:167-185 | Visiting every queried node gives the retargeted document. |
| ProjectReferenceService.UpdateReferencesInProject | src/CodingWithCalvin.ProjectRenamifier/Services/ProjectReferenceService.cs:138-191 | Saves exactly when the file references the old file name. The saved document has every such reference pointing at the relative path from the project's directory to the new file. |
| ProjectReferenceService.RetargetWithoutReference | src/CodingWithCalvin.ProjectRenamifier/Services/ProjectReferenceService.cs:187-190 | Without a reference, the document is unchanged. |
| ProjectReferenceService.RetargetedReferencesNameNewFile | src/CodingWithCalvin.ProjectRenamifier/Services/ProjectReferenceService.cs:175-184 | After retargeting, the project references the new file name. No reference to the old name is left when the names differ ignoring case. |
| ProjectReferenceService.SaveReferences | src/CodingWithCalvin.ProjectRenamifier/Services/ProjectReferenceService.cs:187-190 | Updating one project keeps the set of files and changes no other file. |
| ProjectReferenceService.UpdateProjectReferences | src/CodingWithCalvin.ProjectRenamifier/Services/ProjectReferenceService.cs:125-133 | Updates the listed projects in order by the old file name. It stops at the first path whose file cannot be loaded and returns that path. |
| ProjectReferenceService.UpdatesTouchOnlyListed | src/CodingWithCalvin.ProjectRenamifier/Services/ProjectReferenceService.cs:129-132 | The set of files is unchanged, and unlisted files keep their content. |
| ProjectReferenceService.UpdateFailsOnMissingFile | src/CodingWithCalvin.ProjectRenamifier/Services/ProjectReferenceService.cs:129-132 | The update fails exactly when some listed path is empty or names no file. |
| ProjectReferenceService.UpdateStopsAtFirstMissingFile | src/CodingWithCalvin.ProjectRenamifier/Services/ProjectReferenceService.cs:129-132 | A failure names the first listed path that cannot be loaded. |
| ProjectReferenceService.DiscoveredProjectsUpdate | src/CodingWithCalvin.ProjectRenamifier/Services/ProjectReferenceService.cs:66-72 | Updating the projects the search found never fails. |
| ProjectReferenceService.UpdatedListedFile | src/CodingWithCalvin.ProjectRenamifier/Services/ProjectReferenceService.cs:129-132 | After a successful update of distinct paths, every listed file holds its retargeted document. |
| RenameProjectDialog.MessagesDiffer | src/CodingWithCalvin.ProjectRenamifier/Dialogs/RenameProjectDialog.xaml.cs:47-63 | The three error messages are pairwise different. |
| RenameProjectDialog.FirstInvalidCharacter | src/CodingWithCalvin.ProjectRenamifier/Dialogs/RenameProjectDialog.xaml.cs:57-63 | Finds the first reserved character, or none exactly when the name has none. |
| RenameProjectDialog.GetValidationError | src/CodingWithCalvin.ProjectRenamifier/Dialogs/RenameProjectDialog.xaml.cs:43-66 | The empty-name error exactly when the trimmed text is empty. The same-name error exactly when it is non-empty and equals the current name ignoring case. No error exactly when it also has no reserved character. |
| RenameProjectDialog.InvalidCharacterIsNamed | src/CodingWithCalvin.ProjectRenamifier/Dialogs/RenameProjectDialog.xaml.cs:57-63 | A name that passes the first two checks is rejected with the message naming its first reserved character. |
| RenameProjectDialog.AcceptedNameIsValid | src/CodingWithCalvin.ProjectRenamifier/Dialogs/RenameProjectDialog.xaml.cs:27-41 | When OK is enabled, the new name is non-empty, trimmed, different ignoring case and free of reserved characters, and it validates again. |
| RenameProjectDialog.ValidatorAcceptsExactlyNewNames | src/CodingWithCalvin.ProjectRenamifier/Dialogs/RenameProjectDialog.xaml.cs:43-66 | Accepts every trimmed, new, clean name, and rejects the empty name and the current name in any case. |
| RenameProgress.StatusIcon | src/CodingWithCalvin.ProjectRenamifier/Dialogs/RenameProgressDialog.xaml.cs:116-123 | Each status's icon is one character. |
| RenameProgress.StatusIconIsInjective | src/CodingWithCalvin.ProjectRenamifier/Dialogs/RenameProgressDialog.xaml.cs:116-123 | Different statuses have different icons. |
| RenameProgress.ProgressStep.constructor | src/CodingWithCalvin.ProjectRenamifier/Dialogs/RenameProgressDialog.xaml.cs:88-92 | A new step has its description and is pending. |
| RenameProgress.Apply | src/CodingWithCalvin.ProjectRenamifier/Dialogs/RenameProgressDialog.xaml.cs:36-61 | An update keeps the number of steps. |
| RenameProgress.ApplyAll | src/CodingWithCalvin.ProjectRenamifier/Dialogs/RenameProgressDialog.xaml.cs:36-61 | Any sequence of updates keeps the number of steps. |
| RenameProgress.UpdatesOverwriteStatus | src/CodingWithCalvin.ProjectRenamifier/Dialogs/RenameProgressDialog.xaml.cs:36-61 | After any updates, each step's status is the one set by the last update naming it, so no transition is refused. Its description is the original followed by ` - error` for each failure naming it. |
| RenameProgress.UpdateTouchesOnlyItsStep | src/CodingWithCalvin.ProjectRenamifier/Dialogs/RenameProgressDialog.xaml.cs:38-40 | An update leaves every step but the one it names, including when the index is out of range. |
| RenameProgress.FailureKeepsDescription | src/CodingWithCalvin.ProjectRenamifier/Dialogs/RenameProgressDialog.xaml.cs:59 | A step's original description stays a prefix of its description. |
| RenameProgress.RenameProgressDialog.constructor | src/CodingWithCalvin.ProjectRenamifier/Dialogs/RenameProgressDialog.xaml.cs:18-31 | The dialog holds eleven distinct new steps with the source's descriptions, in order, all pending. |
| RenameProgress.RenameProgressDialog.StartStep | src/CodingWithCalvin.ProjectRenamifier/Dialogs/RenameProgressDialog.xaml.cs:36-43 | The named step, if in range, is in progress; nothing else changes. |
| RenameProgress.RenameProgressDialog.CompleteStep | src/CodingWithCalvin.ProjectRenamifier/Dialogs/RenameProgressDialog.xaml.cs:45-52 | The named step, if in range, is completed; nothing else changes. |
| RenameProgress.RenameProgressDialog.FailStep | src/CodingWithCalvin.ProjectRenamifier/Dialogs/RenameProgressDialog.xaml.cs:54-61 | The named step, if in range, has failed and has ` - error` appended to its description; nothing else changes. |

## Left out

- File, directory and solution I/O (`File.ReadAllText`, `WriteAllText`, `File.Move`, `Directory.Move`, `Directory.GetFiles`, `XmlDocument.Load`/`Save`, `File.Exists`, the DTE solution enumeration) become inputs and outputs. Moves are returned as the new path and not performed.
- Whether a file exists is membership of its exact path in the map of files; the file system's case-insensitive lookup is not modelled.
- Text decoding: a source file is given as its bytes and its already decoded text. `File.ReadAllText` also skips a signature it finds itself; that is not modelled.
- Characters are ASCII only. `\s`, `\w`, `String.Trim`, `Char.IsWhiteSpace` and case-insensitive comparison use ASCII classes and ASCII case folding, not Unicode.
- SourceFileService.UpdateNamespacesInFile: requires an old name that is non-empty and does not start with whitespace, as project names are. It requires a new name without `$` and without a leading digit, so `$1{newName}$2` substitutes it literally. `Regex.Escape` is then the identity on the compared text.
- ProjectFileService.RenameProjectFile and ProjectFileService.RenameParentDirectoryIfMatches: require the full path of a project file (at least a root, and a root and a file name respectively), as their callers pass. `Path.GetDirectoryName("")` and `Directory.GetParent` throw on an empty path.
- SourceFileService.UpdateNamespacesInProject: requires a non-empty project path (`Path.GetDirectoryName("")` throws). The `*.cs` files below the directory are given in enumeration order.
- XML: parsing, `PreserveWhitespace`, namespaces other than the MSBuild one, attributes other than `Include`, and elements nested inside others are not modelled. A document is its root namespace and a flat list of elements in document order.
- `SelectNodes` never returns null for these queries, so the `nodes == null` branches are not modelled.
- ProjectReferenceService.GetRelativePath: percent-escaping and `UnescapeDataString`, and UNC paths are not modelled. Paths are root-first segment sequences with a drive root.
- ProjectReferenceService.RelativePathResolves: states the round trip for well-formed paths only (a drive root, and no `.`, `..` or separator inside a segment).
- ProjectReferenceService.UpdateReferencesInProject: requires non-empty paths for the project and the new project. `Path.GetDirectoryName` and `new Uri` throw on an empty path.
- ProjectReferenceService.UpdateProjectReferences: only a load failure (an empty path or a missing file) is modelled as an exception. An XML error or a failed save is not.
- RenameProgress.RenameProgressDialog.constructor: the header text (`projectName`) is not modelled.
- The dialog's `Complete()`, the progress bar and `UpdateProgress` percentages (floating point), `TextColor` brushes, `PropertyChanged` notifications and all other WPF plumbing are left out.
- `Steps` is a public `ObservableCollection` that other code could replace or mutate. The model keeps it private to the dialog and distinct.
- `RenamifyProjectCommand`, `SolutionFolderService`, the package class, and the rewriting of `using` statements and fully qualified references are not part of this model.
