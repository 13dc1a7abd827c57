/**
 * The selection and formatting part of `generateWorkout` (index.ts:94-122):
 * group the values of the filled inputs by name, take one value of each
 * group by index, and fill the three chosen values into the sentence.
 * The random index is a parameter here.
 */
module Workout {
  import opened Inputs
  import InputCount
  import Validation

  /** The `reduce` of index.ts:99-105, from the record `columns`, keeping each input's value. */
  function Collect(columns: map<string, seq<string>>, s: seq<Input>): map<string, seq<string>>
    decreases |s|
  {
    if s == [] then columns
    else
      var x := s[0];
      Collect(columns[x.name := Column(columns, x.name) + [x.value]], s[1..])
  }

  /** `columns[name] || []`. */
  function Column(columns: map<string, seq<string>>, n: string): seq<string> {
    if n in columns then columns[n] else []
  }

  /** `columns`: the values of the inputs with a non-empty value, grouped by name. */
  function Choices(elements: seq<Input>): map<string, seq<string>> {
    Collect(map[], Filled(elements))
  }

  /** An index for every group, inside the group: what `Math.round(Math.random() * (length - 1))` yields. */
  predicate PicksFit(columns: map<string, seq<string>>, picks: map<string, nat>) {
    forall n :: n in columns ==> n in picks && picks[n] < |columns[n]|
  }

  /** The `reduce` over `Object.entries(columns)`: every group replaced by its chosen value. */
  function Choose(columns: map<string, seq<string>>, picks: map<string, nat>): (chosen: map<string, string>)
    requires PicksFit(columns, picks)
    ensures chosen.Keys == columns.Keys
    ensures forall n :: n in chosen ==> chosen[n] in columns[n]
  {
    map n | n in columns :: columns[n][picks[n]]
  }

  /** The template of index.ts:121. */
  function Sentence(equipment: string, movement: string, duration: string): string {
    "Your workout: " + equipment + " " + movement + " for " + duration + " minutes"
  }

  /** The three groups the sentence needs are present. */
  predicate CanRender(columns: map<string, seq<string>>) {
    "equipment" in columns && "movement" in columns && "duration" in columns
  }

  /** The text `generateWorkout` writes into `#result`, for the given draw. */
  function GenerateWorkout(elements: seq<Input>, picks: map<string, nat>): string
    requires CanRender(Choices(elements)) && PicksFit(Choices(elements), picks)
  {
    var chosen := Choose(Choices(elements), picks);
    Sentence(chosen["equipment"], chosen["movement"], chosen["duration"])
  }

  /** `v` is the value of some input named `n`, and not the empty string. */
  predicate Offered(elements: seq<Input>, n: string, v: string) {
    v != "" && exists i :: 0 <= i < |elements| && elements[i].name == n && elements[i].value == v
  }

  /** What the grouping computes, for any starting record. */
  lemma CollectMeaning(columns: map<string, seq<string>>, s: seq<Input>, n: string)
    ensures n in Collect(columns, s) <==> n in columns || Group(s, n) != []
    ensures n in Collect(columns, s) ==> Collect(columns, s)[n] == Column(columns, n) + Values(Group(s, n))
  {
    CollectKeys(columns, s, n);
    CollectValues(columns, s, n);
  }

  lemma {:induction false} CollectKeys(columns: map<string, seq<string>>, s: seq<Input>, n: string)
    decreases |s|
    ensures n in Collect(columns, s) <==> n in columns || Group(s, n) != []
  {
    if s != [] {
      var x := s[0];
      CollectKeys(columns[x.name := Column(columns, x.name) + [x.value]], s[1..], n);
      assert Group(s, n) != [] <==> x.name == n || Group(s[1..], n) != [];
    }
  }

  lemma {:induction false} CollectValues(columns: map<string, seq<string>>, s: seq<Input>, n: string)
    decreases |s|
    ensures Column(Collect(columns, s), n) == Column(columns, n) + Values(Group(s, n))
  {
    if s == [] {
      assert Values(Group(s, n)) == [];
      assert Column(columns, n) + [] == Column(columns, n);
    } else {
      var x := s[0];
      var next := columns[x.name := Column(columns, x.name) + [x.value]];
      assert Collect(columns, s) == Collect(next, s[1..]);
      CollectValues(next, s[1..], n);
      var c, h, r := Column(columns, n), (if x.name == n then [x.value] else []), Values(Group(s[1..], n));
      assert Column(next, n) == c + h;
      assert Values(Group(s, n)) == h + r by {
        GroupValuesCons(s, n);
      }
      AppendAssoc(c, h, r);
    }
  }

  lemma AppendAssoc(a: seq<string>, b: seq<string>, c: seq<string>)
    ensures (a + b) + c == a + (b + c)
  {
  }

  /** The values of group `n`, by the head of the form. */
  lemma GroupValuesCons(s: seq<Input>, n: string)
    requires s != []
    ensures Values(Group(s, n)) == (if s[0].name == n then [s[0].value] else []) + Values(Group(s[1..], n))
    ensures Group(s, n) != [] <==> s[0].name == n || Group(s[1..], n) != []
  {
    var head := if s[0].name == n then [s[0]] else [];
    var rest := Group(s[1..], n);
    assert Group(s, n) == head + rest;
    assert Values(head + rest) == Values(head) + Values(rest);
  }

  /**
   * A group is offered exactly when some input of its name has a value, and
   * its choices are those values in document order.
   */
  lemma ChoicesMeaning(elements: seq<Input>, n: string)
    ensures n in Choices(elements) <==> Filled(Group(elements, n)) != []
    ensures n in Choices(elements) ==> Choices(elements)[n] == Values(Filled(Group(elements, n)))
  {
    CollectMeaning(map[], Filled(elements), n);
    GroupFilled(elements, n);
  }

  /** The choices of a group are exactly the non-empty values of its inputs. */
  lemma ChoicesAreOffered(elements: seq<Input>, n: string, v: string)
    ensures (n in Choices(elements) && v in Choices(elements)[n]) <==> Offered(elements, n, v)
  {
    if n in Choices(elements) && v in Choices(elements)[n] {
      ChoiceIsOffered(elements, n, v);
    }
    if Offered(elements, n, v) {
      OfferedIsChoice(elements, n, v);
    }
  }

  lemma ChoiceIsOffered(elements: seq<Input>, n: string, v: string)
    requires n in Choices(elements) && v in Choices(elements)[n]
    ensures Offered(elements, n, v)
  {
    ChoicesMeaning(elements, n);
    var g := Group(elements, n);
    var f := Filled(g);
    var j :| 0 <= j < |f| && Values(f)[j] == v;
    var x := f[j];
    assert x.value == v && x.value != "";
    FilledMembers(g);
    assert x in g;
    GroupMembers(elements, n);
    assert x in elements && x.name == n;
    var i :| 0 <= i < |elements| && elements[i] == x;
  }

  lemma OfferedIsChoice(elements: seq<Input>, n: string, v: string)
    requires Offered(elements, n, v)
    ensures n in Choices(elements) && v in Choices(elements)[n]
  {
    var i :| 0 <= i < |elements| && elements[i].name == n && elements[i].value == v;
    var x := elements[i];
    var g := Group(elements, n);
    var f := Filled(g);
    GroupMembers(elements, n);
    assert x in g;
    FilledMembers(g);
    assert x in f;
    var j :| 0 <= j < |f| && f[j] == x;
    assert Values(f)[j] == v;
    ChoicesMeaning(elements, n);
  }

  /**
   * Every value the sentence shows is a non-empty value of an input of the
   * right group, and the sentence follows the template.
   */
  lemma WorkoutUsesOfferedValues(elements: seq<Input>, picks: map<string, nat>)
    requires CanRender(Choices(elements)) && PicksFit(Choices(elements), picks)
    ensures exists equipment, movement, duration ::
              && GenerateWorkout(elements, picks) == Sentence(equipment, movement, duration)
              && Offered(elements, "equipment", equipment)
              && Offered(elements, "movement", movement)
              && Offered(elements, "duration", duration)
  {
    var chosen := Choose(Choices(elements), picks);
    ChoicesAreOffered(elements, "equipment", chosen["equipment"]);
    ChoicesAreOffered(elements, "movement", chosen["movement"]);
    ChoicesAreOffered(elements, "duration", chosen["duration"]);
  }

  /**
   * While the button is enabled, all three groups have choices, so the
   * sentence never shows `undefined`.
   */
  lemma EnabledCanRender(elements: seq<Input>)
    requires Validation.HasRequiredColumns(elements)
    ensures CanRender(Choices(elements))
  {
    Validation.EnabledAnswers(elements);
    AnsweredCanRender(elements, "equipment");
    AnsweredCanRender(elements, "movement");
    AnsweredCanRender(elements, "duration");
  }

  lemma AnsweredCanRender(elements: seq<Input>, n: string)
    requires Validation.Answered(elements, n)
    ensures n in Choices(elements)
  {
    var i :| 0 <= i < |elements| && elements[i].name == n && Validation.HasText(elements[i].value);
    Validation.TextIsNotBlank(elements[i].value);
    ChoicesAreOffered(elements, n, elements[i].value);
  }

  /** `setInputCount` adds and removes only blank rows, so it leaves the choices alone. */
  lemma ChoicesIgnoreSetInputCount(elements: seq<Input>)
    ensures Choices(InputCount.SetInputCount(elements)) == Choices(elements)
  {
    var r := InputCount.SetInputCount(elements);
    forall n
      ensures (n in Choices(r) <==> n in Choices(elements))
      ensures n in Choices(r) ==> Choices(r)[n] == Choices(elements)[n]
    {
      InputCount.SetInputCountGroups(elements, n);
      ChoicesMeaning(elements, n);
      ChoicesMeaning(r, n);
      assert |Values(Filled(Group(r, n)))| == |Filled(Group(r, n))|;
      assert |Values(Filled(Group(elements, n)))| == |Filled(Group(elements, n))|;
    }
  }
}
