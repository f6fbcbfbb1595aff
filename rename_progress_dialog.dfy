/**
 * `Dialogs/RenameProgressDialog.xaml.cs`: the list of rename steps and their
 * status, updated in place as the rename runs.
 *
 * A step is an object whose description and status the dialog overwrites.
 * The dialog's methods are specified by what they make of the steps' values
 * (`View`), and the properties of sequences of updates are proved on those
 * values.
 */
module RenameProgress {

  datatype StepStatus = Pending | InProgress | Completed | Failed

  /** `StatusIcon`: a bullet, a play arrow, a check mark or a cross. */
  function StatusIcon(status: StepStatus): (icon: string)
    ensures |icon| == 1
  {
    match status
    case Pending => "\U{2022}"
    case InProgress => "\U{25B6}"
    case Completed => "\U{2714}"
    case Failed => "\U{2716}"
  }

  /** Each status has its own icon. */
  lemma StatusIconIsInjective(a: StepStatus, b: StepStatus)
    ensures StatusIcon(a) == StatusIcon(b) <==> a == b
  {
    if StatusIcon(a) == StatusIcon(b) {
      assert StatusIcon(a)[0] == StatusIcon(b)[0];
    }
  }

  /** The descriptions of the eleven steps, in the order the rename runs them. */
  const StepDescriptions: seq<string> := [
    "Analyzing project references",
    "Capturing solution structure",
    "Removing project from solution",
    "Updating project file",
    "Updating namespace declarations",
    "Renaming project file",
    "Renaming project directory",
    "Updating project references",
    "Re-adding project to solution",
    "Updating using statements",
    "Updating fully qualified references"
  ]

  /** The value of a step: what the list shows for it. */
  datatype Step = Step(description: string, status: StepStatus)

  /** `ProgressStep`. */
  class ProgressStep {
    var description: string
    var status: StepStatus

    constructor (description: string)
      ensures this.description == description && status == Pending
    {
      this.description := description;
      status := Pending;
    }

    function Value(): Step
      reads this
    {
      Step(description, status)
    }
  }

  /** One call the rename makes on the dialog. */
  datatype Update = Start(stepIndex: int) | Complete(stepIndex: int) | Fail(stepIndex: int, error: string)

  /** What an update makes of the step it names. */
  function Updated(step: Step, u: Update): Step
  {
    match u
    case Start(_) => step.(status := InProgress)
    case Complete(_) => step.(status := Completed)
    case Fail(_, error) => Step(step.description + " - " + error, Failed)
  }

  /** The steps after one update: an index out of range changes nothing. */
  function Apply(steps: seq<Step>, u: Update): (r: seq<Step>)
    ensures |r| == |steps|
  {
    if 0 <= u.stepIndex < |steps| then steps[u.stepIndex := Updated(steps[u.stepIndex], u)] else steps
  }

  /** The steps after a sequence of updates, in order. */
  function ApplyAll(steps: seq<Step>, updates: seq<Update>): (r: seq<Step>)
    ensures |r| == |steps|
    decreases |updates|
  {
    if updates == [] then steps else ApplyAll(Apply(steps, updates[0]), updates[1..])
  }

  /** The status an update gives the step it names. */
  function StatusSet(u: Update): StepStatus
  {
    match u
    case Start(_) => InProgress
    case Complete(_) => Completed
    case Fail(_, _) => Failed
  }

  /** The status of step k after the updates: that of the last update naming it, else its own. */
  function LastStatus(status: StepStatus, updates: seq<Update>, k: int): StepStatus
    decreases |updates|
  {
    if updates == [] then status
    else
      var u := updates[|updates| - 1];
      if u.stepIndex == k then StatusSet(u) else LastStatus(status, updates[..|updates| - 1], k)
  }

  /** What the failures naming step k append to its description, in order. */
  function FailureNotes(updates: seq<Update>, k: int): string
    decreases |updates|
  {
    if updates == [] then ""
    else
      var u := updates[|updates| - 1];
      FailureNotes(updates[..|updates| - 1], k) + (if u.Fail? && u.stepIndex == k then " - " + u.error else "")
  }

  lemma {:induction false} ApplyAllAppend(steps: seq<Step>, updates: seq<Update>, u: Update)
    ensures ApplyAll(steps, updates + [u]) == Apply(ApplyAll(steps, updates), u)
    decreases |updates|
  {
    if updates != [] {
      assert (updates + [u])[1..] == updates[1..] + [u];
      ApplyAllAppend(Apply(steps, updates[0]), updates[1..], u);
    }
  }

  /**
   * After any updates the list keeps its length, every step keeps its
   * description followed by the errors of the failures that named it, and
   * its status is the one the last update naming it set: no transition is
   * refused.
   */
  lemma {:induction false} UpdatesOverwriteStatus(steps: seq<Step>, updates: seq<Update>, k: nat)
    requires k < |steps|
    ensures ApplyAll(steps, updates)[k]
            == Step(steps[k].description + FailureNotes(updates, k), LastStatus(steps[k].status, updates, k))
    decreases |updates|
  {
    if updates != [] {
      var n := |updates| - 1;
      var u := updates[n];
      assert updates == updates[..n] + [u];
      ApplyAllAppend(steps, updates[..n], u);
      UpdatesOverwriteStatus(steps, updates[..n], k);
    }
  }

  /** An update naming another step, or no step, leaves step k as it is. */
  lemma UpdateTouchesOnlyItsStep(steps: seq<Step>, u: Update, k: nat)
    requires k < |steps| && u.stepIndex != k
    ensures Apply(steps, u)[k] == steps[k]
  {
  }

  /** A failure keeps the step's description as the start of the new one. */
  lemma FailureKeepsDescription(steps: seq<Step>, updates: seq<Update>, k: nat)
    requires k < |steps|
    ensures steps[k].description <= ApplyAll(steps, updates)[k].description
  {
    UpdatesOverwriteStatus(steps, updates, k);
  }

  /** `RenameProgressDialog`: the steps the list shows. */
  class RenameProgressDialog {
    var steps: seq<ProgressStep>

    /** Each step is a separate object. */
    predicate Valid()
      reads this
    {
      forall i, j :: 0 <= i < j < |steps| ==> steps[i] != steps[j]
    }

    /** The values of the steps, in order. */
    function View(): (r: seq<Step>)
      reads this, steps
      ensures |r| == |steps|
    {
      seq(|steps|, k reads this, steps requires 0 <= k < |steps| => steps[k].Value())
    }

    /**
     * The constructor: the collection initializer adds the eleven steps, in
     * order, each a new pending step.
     */
    constructor (projectName: string)
      ensures Valid() && fresh(steps)
      ensures View() == seq(|StepDescriptions|, k requires 0 <= k < |StepDescriptions| => Step(StepDescriptions[k], Pending))
    {
      var list: seq<ProgressStep> := [];
      for k := 0 to |StepDescriptions|
        invariant |list| == k
        invariant forall i :: 0 <= i < k ==> fresh(list[i])
        invariant forall i, j :: 0 <= i < j < k ==> list[i] != list[j]
        invariant forall i :: 0 <= i < k ==> list[i].Value() == Step(StepDescriptions[i], Pending)
      {
        var step := new ProgressStep(StepDescriptions[k]);
        list := list + [step];
      }
      steps := list;
    }

    /** `StartStep`: the step at the index, if there is one, is in progress. */
    method StartStep(stepIndex: int)
      requires Valid()
      modifies steps
      ensures Valid()
      ensures View() == Apply(old(View()), Start(stepIndex))
    {
      if 0 <= stepIndex < |steps| {
        steps[stepIndex].status := InProgress;
      }
    }

    /** `CompleteStep`: the step at the index, if there is one, is completed. */
    method CompleteStep(stepIndex: int)
      requires Valid()
      modifies steps
      ensures Valid()
      ensures View() == Apply(old(View()), Complete(stepIndex))
    {
      if 0 <= stepIndex < |steps| {
        steps[stepIndex].status := Completed;
      }
    }

    /** `FailStep`: the step at the index, if there is one, has failed, and its description names the error. */
    method FailStep(stepIndex: int, error: string)
      requires Valid()
      modifies steps
      ensures Valid()
      ensures View() == Apply(old(View()), Fail(stepIndex, error))
    {
      if 0 <= stepIndex < |steps| {
        steps[stepIndex].status := Failed;
        steps[stepIndex].description := steps[stepIndex].description + " - " + error;
      }
    }
  }
}
