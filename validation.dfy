/**
 * `validateForm` (index.ts:9-31): fold the inputs into a record from group
 * name to "has a non-blank trimmed value", seeded with `duration`,
 * `equipment` and `movement` set to false, and enable the submit button
 * exactly when every entry of the record is true.
 */
module Validation {
  import opened Inputs
  import InputCount

  /** The characters `String.prototype.trim` strips: ECMAScript's WhiteSpace and LineTerminator. */
  predicate IsSpace(c: char) {
    || c == '\t' || c == '\n' || c == '\U{000B}' || c == '\U{000C}' || c == '\r' || c == ' '
    || c == '\U{00A0}' || c == '\U{1680}' || ('\U{2000}' <= c <= '\U{200A}')
    || c == '\U{2028}' || c == '\U{2029}' || c == '\U{202F}' || c == '\U{205F}'
    || c == '\U{3000}' || c == '\U{FEFF}'
  }

  /** `v` without its leading white space. */
  function TrimStart(v: string): (r: string)
    ensures |r| <= |v| && r == v[|v| - |r|..]
    ensures r == [] || !IsSpace(r[0])
    ensures forall i :: 0 <= i < |v| - |r| ==> IsSpace(v[i])
  {
    if v != [] && IsSpace(v[0]) then TrimStart(v[1..]) else v
  }

  /** `v` without its trailing white space. */
  function TrimEnd(v: string): (r: string)
    ensures |r| <= |v| && r == v[..|r|]
    ensures r == [] || !IsSpace(r[|r| - 1])
    ensures forall i :: |r| <= i < |v| ==> IsSpace(v[i])
  {
    if v != [] && IsSpace(v[|v| - 1]) then TrimEnd(v[..|v| - 1]) else v
  }

  /** `value.trim()`. */
  function Trim(v: string): string {
    TrimEnd(TrimStart(v))
  }

  /** `!!input.value?.trim()`: the value has something besides white space. */
  predicate HasText(v: string) {
    Trim(v) != ""
  }

  /** A value trims to nothing exactly when it is all white space. */
  lemma TrimEmpty(v: string)
    ensures Trim(v) == "" <==> forall i :: 0 <= i < |v| ==> IsSpace(v[i])
  {
    if Trim(v) == "" {
      EmptyTrimAllSpace(v);
    }
    if forall i :: 0 <= i < |v| ==> IsSpace(v[i]) {
      AllSpaceTrims(v);
    }
  }

  lemma EmptyTrimAllSpace(v: string)
    requires Trim(v) == ""
    ensures forall i :: 0 <= i < |v| ==> IsSpace(v[i])
  {
    assert TrimStart(v) == [];
  }

  lemma {:induction false} AllSpaceTrims(v: string)
    requires forall i :: 0 <= i < |v| ==> IsSpace(v[i])
    ensures TrimStart(v) == []
  {
    if v != [] {
      assert IsSpace(v[0]);
      AllSpaceTrims(v[1..]);
    }
  }

  /** A value with text is not blank: `setInputCount` counts it as filled too. */
  lemma TextIsNotBlank(v: string)
    requires HasText(v)
    ensures v != ""
  {
  }

  /** The record the fold starts from. */
  const SEEDED: map<string, bool> := map["duration" := false, "equipment" := false, "movement" := false]

  /** The `reduce` of index.ts:10-21, from the record `columns`. */
  function Fold(columns: map<string, bool>, s: seq<Input>): map<string, bool>
    decreases |s|
  {
    if s == [] then columns
    else
      var x := s[0];
      Fold(columns[x.name := (x.name in columns && columns[x.name]) || HasText(x.value)], s[1..])
  }

  /** `columnState`. */
  function ColumnState(elements: seq<Input>): map<string, bool> {
    Fold(SEEDED, elements)
  }

  /** `Object.values(columns).every(Boolean)`. */
  predicate AllTrue(columns: map<string, bool>) {
    forall k :: k in columns ==> columns[k]
  }

  /** `hasRequiredColumns`: the submit button is enabled. */
  predicate HasRequiredColumns(elements: seq<Input>) {
    AllTrue(ColumnState(elements))
  }

  /** Some input named `n` has a value with text in it. */
  predicate Answered(s: seq<Input>, n: string) {
    exists i :: 0 <= i < |s| && s[i].name == n && HasText(s[i].value)
  }

  lemma AnsweredCons(s: seq<Input>, n: string)
    requires s != []
    ensures Answered(s, n) <==> (s[0].name == n && HasText(s[0].value)) || Answered(s[1..], n)
  {
    if Answered(s[1..], n) {
      var i :| 0 <= i < |s[1..]| && s[1..][i].name == n && HasText(s[1..][i].value);
      assert s[i + 1] == s[1..][i];
    }
    if Answered(s, n) && !(s[0].name == n && HasText(s[0].value)) {
      var i :| 0 <= i < |s| && s[i].name == n && HasText(s[i].value);
      assert s[1..][i - 1] == s[i];
    }
  }

  /** What the fold computes, for any starting record. */
  lemma {:induction false} FoldMeaning(columns: map<string, bool>, s: seq<Input>, n: string)
    decreases |s|
    ensures n in Fold(columns, s) <==> n in columns || Group(s, n) != []
    ensures n in Fold(columns, s) ==>
              (Fold(columns, s)[n] <==> (n in columns && columns[n]) || Answered(s, n))
  {
    if s != [] {
      var x := s[0];
      var next := columns[x.name := (x.name in columns && columns[x.name]) || HasText(x.value)];
      FoldMeaning(next, s[1..], n);
      AnsweredCons(s, n);
    }
  }

  /**
   * The record holds the three seeded names and every name of the form, and
   * an entry is true exactly when some input of that name has text.
   */
  lemma ColumnStateMeaning(elements: seq<Input>, n: string)
    ensures n in ColumnState(elements) <==> n in SEEDED || Group(elements, n) != []
    ensures n in ColumnState(elements) ==> (ColumnState(elements)[n] <==> Answered(elements, n))
  {
    FoldMeaning(SEEDED, elements, n);
  }

  lemma AnsweredHasGroup(s: seq<Input>, n: string)
    requires Answered(s, n)
    ensures Group(s, n) != []
  {
    var i :| 0 <= i < |s| && s[i].name == n && HasText(s[i].value);
    GroupMembers(s, n);
    assert s[i] in Group(s, n);
  }

  /** Every name of the form has text somewhere. */
  predicate EveryNameAnswered(elements: seq<Input>) {
    forall i :: 0 <= i < |elements| ==> Answered(elements, elements[i].name)
  }

  lemma EnabledAnswers(elements: seq<Input>)
    requires HasRequiredColumns(elements)
    ensures Answered(elements, "duration") && Answered(elements, "equipment") && Answered(elements, "movement")
    ensures EveryNameAnswered(elements)
  {
    SeededAnswered(elements, "duration");
    SeededAnswered(elements, "equipment");
    SeededAnswered(elements, "movement");
    forall i | 0 <= i < |elements|
      ensures Answered(elements, elements[i].name)
    {
      PresentAnswered(elements, i);
    }
  }

  lemma SeededAnswered(elements: seq<Input>, n: string)
    requires HasRequiredColumns(elements)
    requires n == "duration" || n == "equipment" || n == "movement"
    ensures Answered(elements, n)
  {
    SeededNames(n);
    ColumnStateMeaning(elements, n);
  }

  lemma PresentAnswered(elements: seq<Input>, i: nat)
    requires HasRequiredColumns(elements) && i < |elements|
    ensures Answered(elements, elements[i].name)
  {
    var n := elements[i].name;
    assert Group(elements, n) != [] by {
      GroupMembers(elements, n);
      assert elements[i] in Group(elements, n);
    }
    ColumnStateMeaning(elements, n);
  }

  lemma AnswersEnable(elements: seq<Input>)
    requires Answered(elements, "duration") && Answered(elements, "equipment") && Answered(elements, "movement")
    requires EveryNameAnswered(elements)
    ensures HasRequiredColumns(elements)
  {
    var cs := ColumnState(elements);
    forall k | k in cs
      ensures cs[k]
    {
      SeededNames(k);
      EntryAnswered(elements, k);
    }
  }

  /** The seeded record has exactly the three column names. */
  lemma SeededNames(k: string)
    ensures k in SEEDED <==> k == "duration" || k == "equipment" || k == "movement"
  {
  }

  lemma EntryAnswered(elements: seq<Input>, k: string)
    requires k in ColumnState(elements)
    requires k in SEEDED ==> Answered(elements, k)
    requires EveryNameAnswered(elements)
    ensures ColumnState(elements)[k]
  {
    ColumnStateMeaning(elements, k);
    if k !in SEEDED {
      PresentNameAnswered(elements, k);
    }
  }

  lemma PresentNameAnswered(elements: seq<Input>, k: string)
    requires EveryNameAnswered(elements) && Group(elements, k) != []
    ensures Answered(elements, k)
  {
    GroupMembers(elements, k);
    var x := Group(elements, k)[0];
    assert x in Group(elements, k);
    var i :| 0 <= i < |elements| && elements[i] == x;
    assert Answered(elements, elements[i].name);
  }

  /**
   * The button is enabled exactly when `duration`, `equipment` and `movement`
   * and every other name present in the form have an input with text.
   */
  lemma EnabledIff(elements: seq<Input>)
    ensures HasRequiredColumns(elements) <==>
              && Answered(elements, "duration")
              && Answered(elements, "equipment")
              && Answered(elements, "movement")
              && EveryNameAnswered(elements)
  {
    if HasRequiredColumns(elements) {
      EnabledAnswers(elements);
    }
    if && Answered(elements, "duration") && Answered(elements, "equipment")
       && Answered(elements, "movement") && EveryNameAnswered(elements) {
      AnswersEnable(elements);
    }
  }

  /** A seeded name with no input at all keeps the button disabled. */
  lemma MissingSeededDisables(elements: seq<Input>, n: string)
    requires n in SEEDED && Group(elements, n) == []
    ensures !HasRequiredColumns(elements)
  {
    ColumnStateMeaning(elements, n);
    if Answered(elements, n) {
      AnsweredHasGroup(elements, n);
    }
  }

  /** Once a name's entry is true, later inputs cannot make it false. */
  lemma ColumnStateMonotone(a: seq<Input>, b: seq<Input>, n: string)
    requires n in ColumnState(a) && ColumnState(a)[n]
    ensures n in ColumnState(a + b) && ColumnState(a + b)[n]
  {
    ColumnStateMeaning(a, n);
    ColumnStateMeaning(a + b, n);
    GroupConcat(a, b, n);
    var i :| 0 <= i < |a| && a[i].name == n && HasText(a[i].value);
    assert (a + b)[i] == a[i];
  }

  lemma AnsweredByMembers(a: seq<Input>, b: seq<Input>, n: string)
    requires forall x :: x in a ==> x in b
    requires Answered(a, n)
    ensures Answered(b, n)
  {
    var i :| 0 <= i < |a| && a[i].name == n && HasText(a[i].value);
    assert a[i] in b;
    var j :| 0 <= j < |b| && b[j] == a[i];
  }

  /** The record does not depend on the order of the inputs. */
  lemma ColumnStateOrderFree(a: seq<Input>, b: seq<Input>)
    requires multiset(a) == multiset(b)
    ensures ColumnState(a) == ColumnState(b)
  {
    forall x
      ensures x in a <==> x in b
    {
      assert x in a <==> x in multiset(a);
      assert x in b <==> x in multiset(b);
    }
    forall n
      ensures (n in ColumnState(a) <==> n in ColumnState(b))
      ensures n in ColumnState(a) ==> ColumnState(a)[n] == ColumnState(b)[n]
    {
      EntryOrderFree(a, b, n);
    }
  }

  /** Two forms with the same inputs have the same entry for `n`. */
  lemma EntryOrderFree(a: seq<Input>, b: seq<Input>, n: string)
    requires forall x :: x in a <==> x in b
    ensures n in ColumnState(a) <==> n in ColumnState(b)
    ensures n in ColumnState(a) ==> ColumnState(a)[n] == ColumnState(b)[n]
  {
    ColumnStateMeaning(a, n);
    ColumnStateMeaning(b, n);
    if Group(a, n) != [] {
      SameGroupPresence(a, b, n);
    }
    if Group(b, n) != [] {
      SameGroupPresence(b, a, n);
    }
    if Answered(a, n) {
      AnsweredByMembers(a, b, n);
    }
    if Answered(b, n) {
      AnsweredByMembers(b, a, n);
    }
  }

  lemma SameGroupPresence(a: seq<Input>, b: seq<Input>, n: string)
    requires forall x :: x in a ==> x in b
    requires Group(a, n) != []
    ensures Group(b, n) != []
  {
    GroupMembers(a, n);
    GroupMembers(b, n);
    assert Group(a, n)[0] in Group(b, n);
  }

  lemma ValueOfAnswer(s: seq<Input>, n: string, i: nat)
    requires i < |s| && s[i].name == n && HasText(s[i].value)
    ensures s[i].value in Values(Filled(Group(s, n)))
  {
    var f := Filled(Group(s, n));
    GroupMembers(s, n);
    FilledMembers(Group(s, n));
    TextIsNotBlank(s[i].value);
    assert s[i] in f;
    var j :| 0 <= j < |f| && f[j] == s[i];
    assert Values(f)[j] == s[i].value;
  }

  lemma AnswerOfValue(s: seq<Input>, n: string, v: string)
    requires v in Values(Filled(Group(s, n))) && HasText(v)
    ensures Answered(s, n)
  {
    var g := Group(s, n);
    var f := Filled(g);
    var j :| 0 <= j < |f| && Values(f)[j] == v;
    var x := f[j];
    assert x.value == v;
    assert x in g by {
      FilledMembers(g);
    }
    assert x in s && x.name == n by {
      GroupMembers(s, n);
    }
    var i :| 0 <= i < |s| && s[i] == x;
  }

  /** Whether group `n` is answered depends only on the values its filled inputs hold. */
  lemma AnsweredByValues(s: seq<Input>, n: string)
    ensures Answered(s, n) <==> exists v :: v in Values(Filled(Group(s, n))) && HasText(v)
  {
    if Answered(s, n) {
      var i :| 0 <= i < |s| && s[i].name == n && HasText(s[i].value);
      ValueOfAnswer(s, n, i);
    }
    if exists v :: v in Values(Filled(Group(s, n))) && HasText(v) {
      var v :| v in Values(Filled(Group(s, n))) && HasText(v);
      AnswerOfValue(s, n, v);
    }
  }

  /**
   * `handleForm` validates the inputs it collected before `setInputCount` ran;
   * the outcome is the same as on the form `setInputCount` leaves, since only
   * blank rows came or went.
   */
  lemma ValidationIgnoresSetInputCount(elements: seq<Input>)
    ensures ColumnState(InputCount.SetInputCount(elements)) == ColumnState(elements)
    ensures HasRequiredColumns(InputCount.SetInputCount(elements)) == HasRequiredColumns(elements)
  {
    var r := InputCount.SetInputCount(elements);
    forall n
      ensures (n in ColumnState(r) <==> n in ColumnState(elements))
      ensures n in ColumnState(r) ==> ColumnState(r)[n] == ColumnState(elements)[n]
    {
      InputCount.SetInputCountGroups(elements, n);
      ColumnStateMeaning(elements, n);
      ColumnStateMeaning(r, n);
      AnsweredByValues(elements, n);
      AnsweredByValues(r, n);
    }
  }

  /** A value of only white space: filled for `setInputCount`, blank for `validateForm`. */
  predicate WhitespaceOnly(v: string) {
    v != "" && !HasText(v)
  }

  /**
   * The two notions of blank disagree: a group whose values are all white
   * space gets a new blank row from `setInputCount`, yet its entry stays false
   * and the button stays disabled.
   */
  lemma WhitespaceGroupStaysDisabled(elements: seq<Input>, n: string)
    requires Group(elements, n) != []
    requires forall i :: 0 <= i < |Group(elements, n)| ==> WhitespaceOnly(Group(elements, n)[i].value)
    ensures |Group(InputCount.SetInputCount(elements), n)| == |Group(elements, n)| + 1
    ensures n in ColumnState(elements) && !ColumnState(elements)[n]
    ensures !HasRequiredColumns(elements)
  {
    var g := Group(elements, n);
    InputCount.AllFilled(g);
    InputCount.SetInputCountGroups(elements, n);
    ColumnStateMeaning(elements, n);
    GroupMembers(elements, n);
    forall i | 0 <= i < |elements| && elements[i].name == n
      ensures !HasText(elements[i].value)
    {
      assert elements[i] in g;
    }
  }
}
