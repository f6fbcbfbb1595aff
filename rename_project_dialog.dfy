/**
 * `Dialogs/RenameProjectDialog.xaml.cs`: the validation of the proposed new
 * project name.
 *
 * The dialog is its text box's text, the project's current name and the
 * characters `Path.GetInvalidFileNameChars` returns, which are given as a
 * set. The validation runs three checks in order and reports the first that
 * fails; OK is enabled exactly when none does.
 */
module RenameProjectDialog {
  import opened Wrappers
  import opened Text

  const EmptyNameError: string := "Project name cannot be empty."
  const SameNameError: string := "New name must be different from the current name."

  /** The message naming the first character the file system reserves. */
  function InvalidCharacterError(c: char): string
  {
    "Project name cannot contain '" + [c] + "' character."
  }

  /** The three messages are told apart by the dialog's caller. */
  lemma MessagesDiffer(c: char)
    ensures EmptyNameError != SameNameError
    ensures InvalidCharacterError(c) != EmptyNameError && InvalidCharacterError(c) != SameNameError
  {
    assert |EmptyNameError| == 29 && |SameNameError| == 49;
    assert |"Project name cannot contain '"| == 29 && |"' character."| == 12;
  }

  /** `NewProjectName`: the text box's text without surrounding whitespace. */
  function NewProjectName(text: string): string
  {
    Trim(text)
  }

  /** Whether no character of `name` is one of the reserved characters. */
  predicate NoInvalidCharacter(name: string, invalidChars: set<char>)
  {
    forall k :: 0 <= k < |name| ==> name[k] !in invalidChars
  }

  /**
   * The search of the `foreach` loop: the position of the first reserved
   * character of `name`, if there is one.
   */
  function FirstInvalidCharacter(name: string, invalidChars: set<char>): (r: Option<nat>)
    ensures r.None? <==> NoInvalidCharacter(name, invalidChars)
    ensures r.Some? ==> r.value < |name| && name[r.value] in invalidChars
                        && NoInvalidCharacter(name[..r.value], invalidChars)
  {
    if name == [] then None
    else if name[0] in invalidChars then Some(0)
    else
      match FirstInvalidCharacter(name[1..], invalidChars)
      case None => None
      case Some(i) =>
        assert name[..i + 1] == [name[0]] + name[1..][..i];
        Some(i + 1)
  }

  /**
   * `GetValidationError`: the first check the trimmed name fails (empty,
   * the current name ignoring case, a reserved character), or none.
   */
  function GetValidationError(text: string, originalName: string, invalidChars: set<char>): (r: Option<string>)
    ensures r == Some(EmptyNameError) <==> NewProjectName(text) == ""
    ensures r == Some(SameNameError)
            <==> NewProjectName(text) != "" && EqualsIgnoreCase(NewProjectName(text), originalName)
    ensures r.None?
            <==> NewProjectName(text) != "" && !EqualsIgnoreCase(NewProjectName(text), originalName)
                 && NoInvalidCharacter(NewProjectName(text), invalidChars)
  {
    var name := NewProjectName(text);
    if name == "" then Some(EmptyNameError)
    else if EqualsIgnoreCase(name, originalName) then Some(SameNameError)
    else
      match FirstInvalidCharacter(name, invalidChars)
      case Some(i) =>
        MessagesDiffer(name[i]);
        Some(InvalidCharacterError(name[i]))
      case None => None
  }

  /** `ValidateInput`: OK is enabled exactly when there is no validation error. */
  predicate OkEnabled(text: string, originalName: string, invalidChars: set<char>)
  {
    GetValidationError(text, originalName, invalidChars).None?
  }

  /**
   * A name with a reserved character that passes the first two checks is
   * rejected with the message naming its first reserved character.
   */
  lemma InvalidCharacterIsNamed(text: string, originalName: string, invalidChars: set<char>, i: nat)
    requires NewProjectName(text) != "" && !EqualsIgnoreCase(NewProjectName(text), originalName)
    requires i < |NewProjectName(text)| && NewProjectName(text)[i] in invalidChars
    requires NoInvalidCharacter(NewProjectName(text)[..i], invalidChars)
    ensures GetValidationError(text, originalName, invalidChars) == Some(InvalidCharacterError(NewProjectName(text)[i]))
  {
    var name := NewProjectName(text);
    var r := FirstInvalidCharacter(name, invalidChars);
    assert r.value == i;
  }

  /**
   * The name OK accepts is the trimmed text: non-empty, without surrounding
   * whitespace, different from the current name and free of reserved
   * characters; and validating it again accepts it.
   */
  lemma AcceptedNameIsValid(text: string, originalName: string, invalidChars: set<char>)
    requires OkEnabled(text, originalName, invalidChars)
    ensures var name := NewProjectName(text);
            name != "" && !IsWhitespace(name[0]) && !IsWhitespace(name[|name| - 1])
            && !EqualsIgnoreCase(name, originalName) && NoInvalidCharacter(name, invalidChars)
            && OkEnabled(name, originalName, invalidChars)
  {
    TrimIdempotent(text);
  }

  /**
   * The validator accepts any name without surrounding whitespace or
   * reserved characters that differs from the current name, and rejects the
   * empty name and the current name in any case.
   */
  lemma ValidatorAcceptsExactlyNewNames(name: string, currentName: string, otherCase: string, invalidChars: set<char>)
    requires name != "" && !IsWhitespace(name[0]) && !IsWhitespace(name[|name| - 1])
    requires NoInvalidCharacter(name, invalidChars) && !EqualsIgnoreCase(name, currentName)
    requires otherCase == "" || (!IsWhitespace(otherCase[0]) && !IsWhitespace(otherCase[|otherCase| - 1]))
    requires EqualsIgnoreCase(otherCase, currentName)
    ensures OkEnabled(name, currentName, invalidChars)
    ensures GetValidationError("", currentName, invalidChars) == Some(EmptyNameError)
    ensures !OkEnabled(otherCase, currentName, invalidChars)
  {
    assert TrimStart(name) == name;
    assert TrimEnd(name) == name;
    assert TrimStart(otherCase) == otherCase;
    assert TrimEnd(otherCase) == otherCase;
  }
}
