/**
 * The form's `<input>` elements as the script sees them, and the groupings
 * by `name` that every routine of index.ts builds from them with a `reduce`.
 */
module Inputs {

  /** An input element reduced to the three properties the script reads or writes. */
  datatype Input = Input(name: string, value: string, required: bool)

  /** `!input.value`: only the empty string is falsy, so a whitespace-only value counts as filled. */
  predicate IsBlank(x: Input) { x.value == "" }

  /** Every input of `s` carries the name `n`. */
  predicate AllNamed(s: seq<Input>, n: string) {
    forall i :: 0 <= i < |s| ==> s[i].name == n
  }

  predicate Distinct(ns: seq<string>) {
    forall i, j :: 0 <= i < j < |ns| ==> ns[i] != ns[j]
  }

  /**
   * The inputs named `n` in document order: the entry `columns[n]` of the
   * record that `[...(columns[input.name] || []), input]` builds.
   */
  function Group(s: seq<Input>, n: string): (g: seq<Input>)
    ensures |g| <= |s|
    ensures AllNamed(g, n)
  {
    if s == [] then []
    else (if s[0].name == n then [s[0]] else []) + Group(s[1..], n)
  }

  /** `inputs.filter(input => !input.value)`. */
  function Blanks(s: seq<Input>): (b: seq<Input>)
    ensures |b| <= |s|
    ensures forall i :: 0 <= i < |b| ==> IsBlank(b[i])
  {
    if s == [] then []
    else (if IsBlank(s[0]) then [s[0]] else []) + Blanks(s[1..])
  }

  /** The inputs that hold a value (`!!input.value`), in document order. */
  function Filled(s: seq<Input>): (f: seq<Input>)
    ensures |f| <= |s|
    ensures forall i :: 0 <= i < |f| ==> !IsBlank(f[i])
  {
    if s == [] then []
    else (if IsBlank(s[0]) then [] else [s[0]]) + Filled(s[1..])
  }

  /** The filled inputs as (name, value) pairs in document order; `required` plays no part. */
  function Entries(s: seq<Input>): seq<(string, string)> {
    if s == [] then []
    else (if IsBlank(s[0]) then [] else [(s[0].name, s[0].value)]) + Entries(s[1..])
  }

  /** The values of `s`, in order. */
  function Values(s: seq<Input>): seq<string> {
    seq(|s|, i requires 0 <= i < |s| => s[i].value)
  }

  /**
   * The keys of the `columns` record, in the order the `reduce` inserts them:
   * `keys` already present, then each new name at its first appearance in `s`.
   */
  function Keys(keys: seq<string>, s: seq<Input>): (r: seq<string>)
    requires Distinct(keys)
    ensures Distinct(r)
    ensures forall n :: n in r <==> n in keys || Group(s, n) != []
    decreases |s|
  {
    if s == [] then keys
    else Keys(if s[0].name in keys then keys else keys + [s[0].name], s[1..])
  }

  /** The group names of a form, in first-appearance order. */
  function Names(s: seq<Input>): seq<string> {
    Keys([], s)
  }

  /** The members of group `n` are the inputs of `s` named `n`. */
  lemma {:induction false} GroupMembers(s: seq<Input>, n: string)
    ensures forall x :: x in Group(s, n) <==> x in s && x.name == n
  {
    if s != [] {
      GroupMembers(s[1..], n);
      assert s == [s[0]] + s[1..];
    }
  }

  /** The filled inputs are the inputs of `s` that hold a value. */
  lemma {:induction false} FilledMembers(s: seq<Input>)
    ensures forall x :: x in Filled(s) <==> x in s && !IsBlank(x)
  {
    if s != [] {
      FilledMembers(s[1..]);
      assert s == [s[0]] + s[1..];
    }
  }

  lemma {:induction false} GroupConcat(a: seq<Input>, b: seq<Input>, n: string)
    ensures Group(a + b, n) == Group(a, n) + Group(b, n)
  {
    if a == [] {
      assert a + b == b;
    } else {
      var h := if a[0].name == n then [a[0]] else [];
      assert (a + b)[0] == a[0] && (a + b)[1..] == a[1..] + b;
      GroupConcat(a[1..], b, n);
      calc {
        Group(a + b, n);
        h + Group(a[1..] + b, n);
        h + (Group(a[1..], n) + Group(b, n));
        (h + Group(a[1..], n)) + Group(b, n);
      }
    }
  }

  lemma {:induction false} BlanksConcat(a: seq<Input>, b: seq<Input>)
    ensures Blanks(a + b) == Blanks(a) + Blanks(b)
  {
    if a == [] {
      assert a + b == b;
    } else {
      assert (a + b)[1..] == a[1..] + b;
      BlanksConcat(a[1..], b);
    }
  }

  lemma {:induction false} FilledConcat(a: seq<Input>, b: seq<Input>)
    ensures Filled(a + b) == Filled(a) + Filled(b)
  {
    if a == [] {
      assert a + b == b;
    } else {
      assert (a + b)[1..] == a[1..] + b;
      FilledConcat(a[1..], b);
    }
  }

  lemma {:induction false} EntriesConcat(a: seq<Input>, b: seq<Input>)
    ensures Entries(a + b) == Entries(a) + Entries(b)
  {
    if a == [] {
      assert a + b == b;
    } else {
      assert (a + b)[0] == a[0] && (a + b)[1..] == a[1..] + b;
      EntriesConcat(a[1..], b);
    }
  }

  lemma EntriesSplice(a: seq<Input>, x: Input, b: seq<Input>)
    ensures Entries(a + [x] + b) == Entries(a) + Entries([x]) + Entries(b)
  {
    EntriesConcat(a + [x], b);
    EntriesConcat(a, [x]);
  }

  /** Grouping around one input in the middle. */
  lemma GroupSplice(a: seq<Input>, x: Input, b: seq<Input>, n: string)
    ensures Group(a + [x] + b, n) == Group(a, n) + (if x.name == n then [x] else []) + Group(b, n)
  {
    GroupConcat(a + [x], b, n);
    GroupConcat(a, [x], n);
  }

  /** Grouping a sequence that already is one group changes nothing. */
  lemma {:induction false} GroupOfGroup(g: seq<Input>, n: string)
    requires AllNamed(g, n)
    ensures Group(g, n) == g
  {
    if g != [] {
      GroupOfGroup(g[1..], n);
    }
  }

  /** A sequence without the name `n` has an empty group `n`. */
  lemma {:induction false} GroupAbsent(s: seq<Input>, n: string)
    requires forall i :: 0 <= i < |s| ==> s[i].name != n
    ensures Group(s, n) == []
  {
    if s != [] {
      GroupAbsent(s[1..], n);
    }
  }

  /** Every input is either blank or filled. */
  lemma {:induction false} BlanksPlusFilled(s: seq<Input>)
    ensures |Blanks(s)| + |Filled(s)| == |s|
  {
    if s != [] {
      BlanksPlusFilled(s[1..]);
    }
  }

  /** Dropping the blanks first and then grouping is grouping first. */
  lemma {:induction false} GroupFilled(s: seq<Input>, n: string)
    ensures Group(Filled(s), n) == Filled(Group(s, n))
  {
    if s != [] {
      GroupFilled(s[1..], n);
      var x := s[0];
      var f := if IsBlank(x) then [] else [x];
      GroupConcat(f, Filled(s[1..]), n);
      FilledConcat(if x.name == n then [x] else [], Group(s[1..], n));
    }
  }
}
