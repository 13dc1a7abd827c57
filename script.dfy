/**
 * The page of index.ts as one object: the form's inputs in document order,
 * the `disabled` state of the submit button and the text of `#result`.
 * The DOM calls the script makes (`remove`, `after`, `setAttribute`) are
 * methods that change `elements`; `setInputCount`, `validateForm`,
 * `handleForm` and `generateWorkout` are the methods that call them, each
 * proved to leave the page as the functions of `InputCount`, `Validation`
 * and `Workout` say.
 */
module Script {
  import opened Inputs
  import InputCount
  import Validation
  import Workout

  class Page {
    /** The `<input>` elements of the form, in document order. */
    var elements: seq<Input>
    /** Whether the submit button carries the `disabled` attribute. */
    var submitDisabled: bool
    /** The `textContent` of `#result`. */
    var result: string

    /** The button is enabled exactly when every column has an answer. */
    predicate Valid()
      reads this
    {
      submitDisabled == !Validation.HasRequiredColumns(elements)
    }

    /**
     * Page load: the initial `handleForm(form)` of index.ts:91, on the
     * inputs and the `#result` text the HTML document starts with.
     */
    constructor Load(initial: seq<Input>, shown: string)
      ensures elements == InputCount.SetInputCount(initial)
      ensures submitDisabled == !Validation.HasRequiredColumns(initial)
      ensures result == shown
      ensures Valid()
    {
      elements := initial;
      submitDisabled := true;
      result := shown;
      new;
      HandleForm();
    }

    /** `element.remove()`: the input at position `j` leaves the document. */
    method Remove(j: nat)
      requires j < |elements|
      modifies this`elements
      ensures elements == InputCount.Without(old(elements), j)
    {
      elements := elements[..j] + elements[j + 1..];
    }

    /** `last.after(x)`: `x` enters the document right after position `j`. */
    method After(j: nat, x: Input)
      requires j < |elements|
      modifies this`elements
      ensures elements == InputCount.InsertAfter(old(elements), j, x)
    {
      elements := elements[..j + 1] + [x] + elements[j + 1..];
    }

    /** `setAttribute('required', 'true')` on the input at position `j`. */
    method SetRequired(j: nat)
      requires j < |elements|
      modifies this`elements
      ensures elements == InputCount.MarkRequired(old(elements), j)
    {
      elements := elements[j := elements[j].(required := true)];
    }

    /**
     * `setInputCount(inputs)` (index.ts:34-67): for each group in turn,
     * remove the vestigial blanks one by one, add a cleared clone after the
     * group's last input when the group had no blank, and mark the group's
     * first input required.
     */
    method SetInputCount()
      modifies this`elements
      ensures elements == InputCount.SetInputCount(old(elements))
    {
      var snapshot := elements;
      var columns := Names(snapshot);
      var i := 0;
      while i < |columns|
        invariant 0 <= i <= |columns|
        invariant elements == InputCount.ApplyGroups(snapshot, columns[..i])
      {
        var name := columns[i];
        InputCount.NextGroup(snapshot, i);
        VisitGroup(name, Group(snapshot, name));
        i := i + 1;
      }
      assert columns[..i] == columns;
    }

    /** The body of the `forEach` for one group, whose inputs are `inputs`. */
    method VisitGroup(name: string, inputs: seq<Input>)
      requires inputs != [] && inputs == Group(elements, name)
      modifies this`elements
      ensures elements == InputCount.GroupStep(old(elements), name)
    {
      var before := elements;
      var blanks := Blanks(inputs);
      var vestigials := if blanks == [] then [] else blanks[1..];
      InputCount.VestigialsCount(before, name, false);
      RemoveEach(name, |vestigials|);
      InputCount.StepParts(before, name);
      InputCount.StepUnfolds(before, name);
      if blanks == [] {
        var last := InputCount.LastIndex(elements, name);
        After(last, InputCount.Clone(elements[last]));
      }
      SetRequired(InputCount.FirstIndex(elements, name));
    }

    /** `vestigials.forEach(vestigial => vestigial.remove())`, for the `count` vestigials of group `name`. */
    method RemoveEach(name: string, count: nat)
      requires count == InputCount.Vestigials(elements, name, false)
      modifies this`elements
      ensures elements == InputCount.RemoveVestigials(old(elements), name)
    {
      var before := elements;
      InputCount.DropNone(before, name, false);
      var removed := 0;
      while removed < count
        invariant removed <= count
        invariant elements == InputCount.DropVestigials(before, name, false, removed)
      {
        InputCount.DropOneMore(before, name, false, removed);
        Remove(InputCount.FirstVestigial(elements, name, false));
        removed := removed + 1;
      }
    }

    /**
     * `validateForm(inputs)` (index.ts:9-31): fold the inputs into the
     * column state and set or remove the button's `disabled` attribute.
     */
    method ValidateForm(inputs: seq<Input>)
      modifies this`submitDisabled
      ensures submitDisabled == !Validation.HasRequiredColumns(inputs)
    {
      var hasRequiredColumns := Validation.HasRequiredColumns(inputs);
      if hasRequiredColumns {
        submitDisabled := false;
      } else {
        submitDisabled := true;
      }
    }

    /**
     * `handleForm(form)` (index.ts:70-77), on every `keyup` and once on load.
     * `validateForm` receives the array taken before `setInputCount` ran;
     * the button still ends up agreeing with the page as it now is.
     */
    method HandleForm()
      modifies this`elements, this`submitDisabled
      ensures elements == InputCount.SetInputCount(old(elements))
      ensures submitDisabled == !Validation.HasRequiredColumns(old(elements))
      ensures Valid()
    {
      var inputs := elements;
      SetInputCount();
      ValidateForm(inputs);
      Validation.ValidationIgnoresSetInputCount(inputs);
    }

    /**
     * A click on the enabled button (index.ts:94-122), with `picks` standing
     * for the index `Math.round(Math.random() * (choices.length - 1))`
     * drawn for each group.
     */
    method GenerateWorkout(picks: map<string, nat>)
      requires Valid() && !submitDisabled
      requires Workout.PicksFit(Workout.Choices(elements), picks)
      modifies this`result
      ensures Workout.CanRender(Workout.Choices(elements))
      ensures result == Workout.GenerateWorkout(elements, picks)
    {
      Workout.EnabledCanRender(elements);
      result := Workout.GenerateWorkout(elements, picks);
    }
  }
}
