/**
 * What `setInputCount` (index.ts:34-67) does to the form, as functions on the
 * sequence of inputs in document order, and what it guarantees: every group
 * ends with exactly one blank row, filled rows are never touched, and a second
 * run changes nothing.
 *
 * The source visits the groups of the `columns` record one after the other;
 * for one group it removes every blank but the first (`vestigials`), adds a
 * cleared clone after the group's last input when the group had no blank,
 * and marks the group's first input `required`. `GroupStep` is that visit,
 * `ApplyGroups` the sequence of visits.
 */
module InputCount {
  import opened Inputs

  /** The row added to a full group: `last.cloneNode()`, its value set to `''` and `required` removed. */
  function Clone(x: Input): Input {
    Input(x.name, "", false)
  }

  // The three DOM edits the script makes, on positions in document order.

  /** `s` once its input at position `j` has been detached by `remove()`. */
  function Without(s: seq<Input>, j: nat): (r: seq<Input>)
    requires j < |s|
    ensures |r| == |s| - 1
  {
    s[..j] + s[j + 1..]
  }

  /** `s` once `x` has been placed right after position `j` by `after(x)`. */
  function InsertAfter(s: seq<Input>, j: nat, x: Input): (r: seq<Input>)
    requires j < |s|
    ensures |r| == |s| + 1 && r[j + 1] == x
  {
    s[..j + 1] + [x] + s[j + 1..]
  }

  /** `s` once the input at position `j` got `setAttribute('required', 'true')`. */
  function MarkRequired(s: seq<Input>, j: nat): (r: seq<Input>)
    requires j < |s|
    ensures |r| == |s| && r[j].required
  {
    s[j := s[j].(required := true)]
  }

  /**
   * The number of vestigial blanks of group `n` in `s`: every blank named `n`
   * after the first one (`seen` says that the first one lies before `s`).
   */
  function Vestigials(s: seq<Input>, n: string, seen: bool): nat {
    if s == [] then 0
    else
      var b := s[0].name == n && IsBlank(s[0]);
      (if b && seen then 1 else 0) + Vestigials(s[1..], n, seen || b)
  }

  /** `s` after the first `t` vestigial blanks of group `n` have been removed. */
  function DropVestigials(s: seq<Input>, n: string, seen: bool, t: nat): seq<Input> {
    if s == [] then []
    else
      var b := s[0].name == n && IsBlank(s[0]);
      if b && seen && t > 0 then DropVestigials(s[1..], n, true, t - 1)
      else [s[0]] + DropVestigials(s[1..], n, seen || b, t)
  }

  /** The position of the first vestigial blank of group `n` in `s`: the next one `remove()` detaches. */
  function FirstVestigial(s: seq<Input>, n: string, seen: bool): (j: nat)
    requires Vestigials(s, n, seen) > 0
    ensures j < |s| && s[j].name == n && IsBlank(s[j])
  {
    var b := s[0].name == n && IsBlank(s[0]);
    if b && seen then 0 else 1 + FirstVestigial(s[1..], n, seen || b)
  }

  /** The position of the first input named `n` (`inputs[0]`). */
  function FirstIndex(s: seq<Input>, n: string): (k: nat)
    requires Group(s, n) != []
    ensures k < |s| && s[k].name == n
    ensures forall j :: 0 <= j < k ==> s[j].name != n
  {
    if s[0].name == n then 0 else 1 + FirstIndex(s[1..], n)
  }

  /** The position of the last input named `n` (`inputs[inputs.length - 1]`). */
  function LastIndex(s: seq<Input>, n: string): (k: nat)
    requires Group(s, n) != []
    ensures k < |s| && s[k].name == n
    ensures forall j :: k < j < |s| ==> s[j].name != n
  {
    if Group(s[1..], n) == [] then
      GroupMembers(s[1..], n);
      assert forall j :: 0 < j < |s| ==> s[j] in s[1..];
      0
    else 1 + LastIndex(s[1..], n)
  }

  /** The position of the first blank of a group: where `empty` sits. */
  function FirstBlank(g: seq<Input>): (k: nat)
    requires Blanks(g) != []
    ensures k < |g| && IsBlank(g[k])
    ensures forall j :: 0 <= j < k ==> !IsBlank(g[j])
  {
    if IsBlank(g[0]) then 0 else 1 + FirstBlank(g[1..])
  }

  /** `vestigials.forEach(vestigial => vestigial.remove())`. */
  function RemoveVestigials(s: seq<Input>, n: string): seq<Input> {
    DropVestigials(s, n, false, Vestigials(s, n, false))
  }

  /** `last.after(input)`: a cleared clone of the last input named `n`, right after it. */
  function AddBlankAfterLast(s: seq<Input>, n: string): seq<Input> {
    if Group(s, n) == [] then s
    else
      var k := LastIndex(s, n);
      InsertAfter(s, k, Clone(s[k]))
  }

  /** `inputs[0].setAttribute('required', 'true')`. */
  function MarkFirstRequired(s: seq<Input>, n: string): seq<Input> {
    if Group(s, n) == [] then s
    else
      var k := FirstIndex(s, n);
      MarkRequired(s, k)
  }

  /** One iteration of the `forEach` over the groups: the visit of group `n`. */
  function GroupStep(s: seq<Input>, n: string): seq<Input> {
    if Group(s, n) == [] then s
    else
      var kept := RemoveVestigials(s, n);
      var padded := if Blanks(Group(s, n)) == [] then AddBlankAfterLast(kept, n) else kept;
      MarkFirstRequired(padded, n)
  }

  /** The visits of the groups `ns`, in order. */
  function ApplyGroups(s: seq<Input>, ns: seq<string>): seq<Input> {
    if ns == [] then s
    else GroupStep(ApplyGroups(s, ns[..|ns| - 1]), ns[|ns| - 1])
  }

  /** The form after `setInputCount(elements)`. */
  function SetInputCount(elements: seq<Input>): seq<Input> {
    ApplyGroups(elements, Names(elements))
  }

  /** A group as `setInputCount` leaves it: exactly one blank row, and the first input required. */
  predicate Settled(g: seq<Input>) {
    g != [] && |Blanks(g)| == 1 && g[0].required
  }

  // ---------------------------------------------------------------------------
  // Removing vestigials one at a time

  lemma {:induction false} DropNone(s: seq<Input>, n: string, seen: bool)
    ensures DropVestigials(s, n, seen, 0) == s
  {
    if s != [] {
      DropNone(s[1..], n, seen || (s[0].name == n && IsBlank(s[0])));
    }
  }

  /** Removing `t` vestigials leaves `t` fewer. */
  lemma {:induction false} VestigialsAfterDrop(s: seq<Input>, n: string, seen: bool, t: nat)
    requires t <= Vestigials(s, n, seen)
    ensures Vestigials(DropVestigials(s, n, seen, t), n, seen) == Vestigials(s, n, seen) - t
  {
    if s != [] {
      var b := s[0].name == n && IsBlank(s[0]);
      if b && seen && t > 0 {
        VestigialsAfterDrop(s[1..], n, true, t - 1);
      } else {
        VestigialsAfterDrop(s[1..], n, seen || b, t);
      }
    }
  }

  lemma WithoutCons(x: Input, d: seq<Input>, j: nat)
    requires j < |d|
    ensures Without([x] + d, j + 1) == [x] + Without(d, j)
  {
    assert ([x] + d)[..j + 1] == [x] + d[..j];
    assert ([x] + d)[j + 2..] == d[j + 1..];
  }

  /**
   * Detaching the first remaining vestigial is one more step of `DropVestigials`:
   * removing them one by one in document order ends where the function does.
   */
  lemma {:induction false} DropOneMore(s: seq<Input>, n: string, seen: bool, t: nat)
    requires t < Vestigials(s, n, seen)
    ensures Vestigials(DropVestigials(s, n, seen, t), n, seen) > 0
    ensures var d := DropVestigials(s, n, seen, t);
            Without(d, FirstVestigial(d, n, seen)) == DropVestigials(s, n, seen, t + 1)
  {
    VestigialsAfterDrop(s, n, seen, t);
    var b := s[0].name == n && IsBlank(s[0]);
    if b && seen && t > 0 {
      DropOneMore(s[1..], n, true, t - 1);
      SkipHead(s, n, t);
    } else if b && seen {
      DropNone(s, n, seen);
      DropNone(s[1..], n, true);
    } else {
      DropOneMore(s[1..], n, seen || b, t);
      KeepHead(s, n, seen, t);
    }
  }

  /** A vestigial at the head that is among the first `t` is dropped, and the rest follows. */
  lemma SkipHead(s: seq<Input>, n: string, t: nat)
    requires s != [] && s[0].name == n && IsBlank(s[0]) && t > 0
    requires Vestigials(DropVestigials(s[1..], n, true, t - 1), n, true) > 0
    requires var d := DropVestigials(s[1..], n, true, t - 1);
             Without(d, FirstVestigial(d, n, true)) == DropVestigials(s[1..], n, true, t)
    ensures Vestigials(DropVestigials(s, n, true, t), n, true) > 0
    ensures var d := DropVestigials(s, n, true, t);
            Without(d, FirstVestigial(d, n, true)) == DropVestigials(s, n, true, t + 1)
  {
    assert DropVestigials(s, n, true, t) == DropVestigials(s[1..], n, true, t - 1);
    assert DropVestigials(s, n, true, t + 1) == DropVestigials(s[1..], n, true, t);
  }

  /** A head that is no vestigial is kept, and the next vestigial sits one place further on. */
  lemma KeepHead(s: seq<Input>, n: string, seen: bool, t: nat)
    requires s != [] && !(s[0].name == n && IsBlank(s[0]) && seen)
    requires var b := s[0].name == n && IsBlank(s[0]);
             var d' := DropVestigials(s[1..], n, seen || b, t);
             && Vestigials(d', n, seen || b) > 0
             && Without(d', FirstVestigial(d', n, seen || b)) == DropVestigials(s[1..], n, seen || b, t + 1)
    ensures Vestigials(DropVestigials(s, n, seen, t), n, seen) > 0
    ensures var d := DropVestigials(s, n, seen, t);
            Without(d, FirstVestigial(d, n, seen)) == DropVestigials(s, n, seen, t + 1)
  {
    var b := s[0].name == n && IsBlank(s[0]);
    var d' := DropVestigials(s[1..], n, seen || b, t);
    var d := DropVestigials(s, n, seen, t);
    assert d == [s[0]] + d';
    assert d[0] == s[0] && d[1..] == d';
    var j' := FirstVestigial(d', n, seen || b);
    assert FirstVestigial(d, n, seen) == 1 + j';
    WithoutCons(s[0], d', j');
    assert DropVestigials(s, n, seen, t + 1) == [s[0]] + DropVestigials(s[1..], n, seen || b, t + 1);
  }

  // ---------------------------------------------------------------------------
  // Every step acts on one group only

  lemma {:induction false} GroupDrop(s: seq<Input>, n: string, seen: bool, t: nat, m: string)
    ensures Group(DropVestigials(s, n, seen, t), m)
            == if m == n then DropVestigials(Group(s, n), n, seen, t) else Group(s, m)
  {
    if s != [] {
      var b := s[0].name == n && IsBlank(s[0]);
      var d := DropVestigials(s, n, seen, t);
      var hm := if s[0].name == m then [s[0]] else [];
      assert Group(s, m) == hm + Group(s[1..], m);
      if b && seen && t > 0 {
        GroupDrop(s[1..], n, true, t - 1, m);
        if m == n {
          var g := Group(s, n);
          assert g[0] == s[0] && g[1..] == Group(s[1..], n);
        }
      } else {
        var d' := DropVestigials(s[1..], n, seen || b, t);
        GroupDrop(s[1..], n, seen || b, t, m);
        assert d == [s[0]] + d';
        assert d[0] == s[0] && d[1..] == d';
        assert Group(d, m) == hm + Group(d', m);
        if m == n && s[0].name == n {
          var g := Group(s, n);
          assert g[0] == s[0] && g[1..] == Group(s[1..], n);
          assert DropVestigials(g, n, seen, t) == [s[0]] + DropVestigials(g[1..], n, seen || b, t);
          assert Group(d, m) == DropVestigials(g, n, seen, t);
        } else if m == n {
          assert Group(s, n) == Group(s[1..], n);
          assert Group(d, m) == DropVestigials(Group(s, n), n, seen, t);
        } else {
          assert Group(d, m) == Group(s, m);
        }
      }
    }
  }

  lemma {:induction false} VestigialsOfGroup(s: seq<Input>, n: string, seen: bool)
    ensures Vestigials(s, n, seen) == Vestigials(Group(s, n), n, seen)
  {
    if s != [] {
      var b := s[0].name == n && IsBlank(s[0]);
      VestigialsOfGroup(s[1..], n, seen || b);
      if s[0].name == n {
        var g := Group(s, n);
        assert g == [s[0]] + Group(s[1..], n);
        assert g[0] == s[0] && g[1..] == Group(s[1..], n);
        assert Vestigials(g, n, seen) == (if b && seen then 1 else 0) + Vestigials(g[1..], n, seen || b);
      } else {
        assert Group(s, n) == Group(s[1..], n);
      }
    }
  }

  /** Counting the vestigials: all blanks of the group but one. */
  lemma {:induction false} VestigialsCount(s: seq<Input>, n: string, seen: bool)
    ensures Vestigials(s, n, seen)
            == if seen then |Blanks(Group(s, n))|
               else if Blanks(Group(s, n)) == [] then 0 else |Blanks(Group(s, n))| - 1
  {
    if s != [] {
      var b := s[0].name == n && IsBlank(s[0]);
      VestigialsCount(s[1..], n, seen || b);
      var head := if s[0].name == n then [s[0]] else [];
      BlanksConcat(head, Group(s[1..], n));
    }
  }

  lemma GroupRemove(s: seq<Input>, n: string, m: string)
    ensures Group(RemoveVestigials(s, n), m)
            == if m == n then RemoveVestigials(Group(s, n), n) else Group(s, m)
  {
    VestigialsOfGroup(s, n, false);
    GroupDrop(s, n, false, Vestigials(s, n, false), m);
  }

  /** The group survives each part of its visit, so each part can find its first and last input. */
  lemma StepParts(s: seq<Input>, n: string)
    requires Group(s, n) != []
    ensures Group(RemoveVestigials(s, n), n) != []
    ensures Group(AddBlankAfterLast(RemoveVestigials(s, n), n), n) != []
  {
    var kept := RemoveVestigials(s, n);
    GroupRemove(s, n, n);
    RemoveKeepsFirst(Group(s, n), n);
    GroupAdd(kept, n, n);
    LastOfOneGroup(Group(kept, n), n);
  }

  /** The group's first input is never a vestigial. */
  lemma RemoveKeepsFirst(s: seq<Input>, n: string)
    requires s != []
    ensures RemoveVestigials(s, n) != [] && RemoveVestigials(s, n)[0] == s[0]
  {
  }

  /** In a sequence that starts with a member of group `n`, that member is the group's first input. */
  lemma HeadIsFirst(s: seq<Input>, n: string)
    requires s != [] && s[0].name == n
    ensures Group(s, n) != [] && FirstIndex(s, n) == 0
    ensures MarkFirstRequired(s, n) == s[0 := s[0].(required := true)]
  {
  }

  /** The first member of group `n` sits at `FirstIndex`. */
  lemma FirstOfGroup(s: seq<Input>, n: string)
    requires Group(s, n) != []
    ensures Group(s, n)[0] == s[FirstIndex(s, n)]
  {
    var k := FirstIndex(s, n);
    assert s == s[..k] + [s[k]] + s[k + 1..];
    GroupSplice(s[..k], s[k], s[k + 1..], n);
    GroupAbsent(s[..k], n);
  }

  /** In one group, the last input is the last member. */
  lemma LastOfOneGroup(g: seq<Input>, n: string)
    requires g != [] && AllNamed(g, n)
    ensures Group(g, n) != [] && LastIndex(g, n) == |g| - 1
    ensures AddBlankAfterLast(g, n) == g + [Clone(g[|g| - 1])]
  {
    GroupOfGroup(g, n);
    var k := LastIndex(g, n);
    assert g[|g| - 1].name == n;
    assert k == |g| - 1;
    assert g[..k + 1] == g && g[k + 1..] == [];
  }

  lemma GroupAdd(s: seq<Input>, n: string, m: string)
    requires Group(s, n) != []
    ensures Group(AddBlankAfterLast(s, n), m)
            == if m == n then AddBlankAfterLast(Group(s, n), n) else Group(s, m)
  {
    var k := LastIndex(s, n);
    var a, x, b := s[..k + 1], s[k], s[k + 1..];
    assert s == a + b;
    assert AddBlankAfterLast(s, n) == a + [Clone(x)] + b;
    if m == n {
      GroupAddOwn(a, b, n);
    } else {
      GroupConcat(a, b, m);
      GroupSplice(a, Clone(x), b, m);
    }
  }

  /** The clone of the last input of group `n` ends group `n`. */
  lemma GroupAddOwn(a: seq<Input>, b: seq<Input>, n: string)
    requires a != [] && a[|a| - 1].name == n && forall j :: 0 <= j < |b| ==> b[j].name != n
    ensures Group(a + [Clone(a[|a| - 1])] + b, n) == AddBlankAfterLast(Group(a + b, n), n)
  {
    var c := Clone(a[|a| - 1]);
    GroupAbsent(b, n);
    GroupConcat(a, b, n);
    GroupSplice(a, c, b, n);
    var g := Group(a, n);
    assert a == a[..|a| - 1] + [a[|a| - 1]];
    GroupConcat(a[..|a| - 1], [a[|a| - 1]], n);
    assert g != [] && g[|g| - 1] == a[|a| - 1];
    LastOfOneGroup(g, n);
    assert Group(a + b, n) == g;
  }

  lemma GroupMark(s: seq<Input>, n: string, m: string)
    requires Group(s, n) != []
    ensures Group(MarkFirstRequired(s, n), m)
            == if m == n then MarkFirstRequired(Group(s, n), n) else Group(s, m)
  {
    var k := FirstIndex(s, n);
    var a, x, b := s[..k], s[k], s[k + 1..];
    var y := x.(required := true);
    assert s == a + [x] + b;
    assert MarkFirstRequired(s, n) == a + [y] + b;
    if m == n {
      GroupMarkOwn(a, x, b, n);
    } else {
      GroupSplice(a, x, b, m);
      GroupSplice(a, y, b, m);
    }
  }

  /** Marking the first input of group `n` marks the head of that group. */
  lemma GroupMarkOwn(a: seq<Input>, x: Input, b: seq<Input>, n: string)
    requires x.name == n && forall j :: 0 <= j < |a| ==> a[j].name != n
    ensures Group(a + [x.(required := true)] + b, n) == MarkFirstRequired(Group(a + [x] + b, n), n)
  {
    GroupAbsent(a, n);
    GroupSplice(a, x, b, n);
    GroupSplice(a, x.(required := true), b, n);
    MarkGroupHead(x, Group(b, n), n);
  }

  lemma MarkGroupHead(x: Input, t: seq<Input>, n: string)
    requires x.name == n
    ensures MarkFirstRequired([x] + t, n) == [x.(required := true)] + t
  {
    HeadIsFirst([x] + t, n);
    assert ([x] + t)[0 := x.(required := true)] == [x.(required := true)] + t;
  }

  /** Visiting group `n` changes group `n` as the visit of that group alone would, and no other group. */
  lemma GroupOfStep(s: seq<Input>, n: string, m: string)
    ensures Group(GroupStep(s, n), m) == if m == n then GroupStep(Group(s, n), n) else Group(s, m)
  {
    var g := Group(s, n);
    if g != [] {
      GroupOfGroup(g, n);
      var kept := RemoveVestigials(s, n);
      GroupRemove(s, n, m);
      GroupRemove(s, n, n);
      RemoveKeepsFirst(g, n);
      assert Group(kept, n) == RemoveVestigials(g, n);
      var padded := if Blanks(g) == [] then AddBlankAfterLast(kept, n) else kept;
      if Blanks(g) == [] {
        GroupAdd(kept, n, m);
        GroupAdd(kept, n, n);
      }
      assert Group(padded, n) == if Blanks(g) == [] then AddBlankAfterLast(RemoveVestigials(g, n), n)
                                 else RemoveVestigials(g, n);
      GroupMark(padded, n, m);
    }
  }

  /** The visits of the groups `ns` leave each group as its own visit would. */
  /**
   * The loop over the record's keys: the group visited at step `i` is still
   * the group collected before the loop, and the visit is one more step of
   * `ApplyGroups`.
   */
  lemma NextGroup(s: seq<Input>, i: nat)
    requires i < |Names(s)|
    ensures var ns := Names(s);
            var n := ns[i];
            && Group(s, n) != []
            && Group(ApplyGroups(s, ns[..i]), n) == Group(s, n)
            && ApplyGroups(s, ns[..i + 1]) == GroupStep(ApplyGroups(s, ns[..i]), n)
  {
    var ns := Names(s);
    var n := ns[i];
    assert n in ns;
    assert n !in ns[..i];
    GroupOfApply(s, ns[..i], n);
    assert ns[..i + 1][..i] == ns[..i];
  }

  lemma {:induction false} GroupOfApply(s: seq<Input>, ns: seq<string>, m: string)
    requires Distinct(ns)
    ensures Group(ApplyGroups(s, ns), m) == if m in ns then GroupStep(Group(s, m), m) else Group(s, m)
  {
    if ns != [] {
      var init := ns[..|ns| - 1];
      var last := ns[|ns| - 1];
      assert ns == init + [last];
      GroupOfApply(s, init, m);
      GroupOfStep(ApplyGroups(s, init), last, m);
    }
  }

  // ---------------------------------------------------------------------------
  // One group on its own

  lemma {:induction false} DropAllSeen(g: seq<Input>, n: string)
    requires AllNamed(g, n)
    ensures DropVestigials(g, n, true, Vestigials(g, n, true)) == Filled(g)
  {
    if g != [] {
      DropAllSeen(g[1..], n);
    }
  }

  lemma DropAllAfterFirst(g: seq<Input>, n: string)
    requires AllNamed(g, n) && Blanks(g) != []
    ensures var k := FirstBlank(g); RemoveVestigials(g, n) == g[..k + 1] + Filled(g[k + 1..])
  {
    var k := FirstBlank(g);
    var a, x, b := g[..k], g[k], g[k + 1..];
    assert g == a + [x] + b && g[..k + 1] == a + [x];
    DropAfterBlank(a, x, b, n);
  }

  /** Behind a filled prefix, the first blank stays and every later blank of the group goes. */
  lemma {:induction false} DropAfterBlank(a: seq<Input>, x: Input, b: seq<Input>, n: string)
    requires AllNamed(a + [x] + b, n) && IsBlank(x)
    requires forall j :: 0 <= j < |a| ==> !IsBlank(a[j])
    ensures RemoveVestigials(a + [x] + b, n) == a + [x] + Filled(b)
  {
    var g := a + [x] + b;
    if a == [] {
      assert g == [x] + b && g[0] == x && g[1..] == b;
      BlankHeadKept(g, n);
    } else {
      var g' := a[1..] + [x] + b;
      assert g[0] == a[0] && g[1..] == g';
      assert RemoveVestigials(g, n) == [a[0]] + RemoveVestigials(g', n) by {
        RemoveCons(g, n);
      }
      assert AllNamed(g', n);
      DropAfterBlank(a[1..], x, b, n);
      assert a + [x] + Filled(b) == [a[0]] + (a[1..] + [x] + Filled(b));
    }
  }

  lemma BlankHeadKept(g: seq<Input>, n: string)
    requires AllNamed(g, n) && g != [] && IsBlank(g[0])
    ensures RemoveVestigials(g, n) == [g[0]] + Filled(g[1..])
  {
    RemoveCons(g, n);
    assert AllNamed(g[1..], n);
    DropAllSeen(g[1..], n);
  }

  /** Removing the vestigials of a sequence, by its head. */
  lemma RemoveCons(s: seq<Input>, n: string)
    requires s != []
    ensures RemoveVestigials(s, n)
            == [s[0]] + if s[0].name == n && IsBlank(s[0])
                        then DropVestigials(s[1..], n, true, Vestigials(s[1..], n, true))
                        else RemoveVestigials(s[1..], n)
  {
  }

  /** The group's first blank row, with `required` set when it is also the group's first input. */
  function KeptBlank(g: seq<Input>): Input
    requires Blanks(g) != []
  {
    var k := FirstBlank(g);
    if k == 0 then g[0].(required := true) else g[k]
  }

  lemma ShapeWithBlank(g: seq<Input>, n: string)
    requires g != [] && AllNamed(g, n) && Blanks(g) != []
    ensures var k := FirstBlank(g);
            GroupStep(g, n) == (g[..k + 1] + Filled(g[k + 1..]))[0 := g[0].(required := true)]
  {
    GroupOfGroup(g, n);
    DropAllAfterFirst(g, n);
    var p := RemoveVestigials(g, n);
    assert GroupStep(g, n) == MarkFirstRequired(p, n);
    RemoveKeepsFirst(g, n);
    HeadIsFirst(p, n);
  }

  /** A group without a blank has no vestigial to remove. */
  lemma NothingToRemove(s: seq<Input>, n: string)
    requires Blanks(Group(s, n)) == []
    ensures RemoveVestigials(s, n) == s
  {
    VestigialsCount(s, n, false);
    DropNone(s, n, false);
  }

  /** The visit of a present group, by its parts. */
  lemma StepUnfolds(s: seq<Input>, n: string)
    requires Group(s, n) != []
    ensures var kept := RemoveVestigials(s, n);
            GroupStep(s, n)
            == MarkFirstRequired(if Blanks(Group(s, n)) == [] then AddBlankAfterLast(kept, n) else kept, n)
  {
  }

  lemma ShapeWithoutBlank(g: seq<Input>, n: string)
    requires g != [] && AllNamed(g, n) && Blanks(g) == []
    ensures GroupStep(g, n) == g[0 := g[0].(required := true)] + [Clone(g[|g| - 1])]
  {
    GroupOfGroup(g, n);
    NothingToRemove(g, n);
    StepUnfolds(g, n);
    PadOneGroup(g, n);
  }

  /** Padding a single group and marking its head. */
  lemma PadOneGroup(g: seq<Input>, n: string)
    requires g != [] && AllNamed(g, n)
    ensures MarkFirstRequired(AddBlankAfterLast(g, n), n) == g[0 := g[0].(required := true)] + [Clone(g[|g| - 1])]
  {
    LastOfOneGroup(g, n);
    var c := Clone(g[|g| - 1]);
    var p := g + [c];
    assert p[0] == g[0];
    HeadIsFirst(p, n);
    var y := g[0].(required := true);
    assert p[0 := y] == g[0 := y] + [c];
  }

  /**
   * The visit of one group, spelled out: when the group has a blank, its first
   * blank stays where it is and every later blank goes; when it has none, a
   * cleared clone of its last input is appended. Either way the first input
   * becomes required and nothing else changes.
   */
  lemma GroupShape(g: seq<Input>, n: string)
    requires g != [] && AllNamed(g, n)
    ensures var r := GroupStep(g, n);
            if Blanks(g) != [] then
              var k := FirstBlank(g);
              r == (g[..k + 1] + Filled(g[k + 1..]))[0 := g[0].(required := true)]
            else
              r == g[0 := g[0].(required := true)] + [Clone(g[|g| - 1])]
  {
    if Blanks(g) != [] {
      ShapeWithBlank(g, n);
    } else {
      ShapeWithoutBlank(g, n);
    }
  }

  /** A sequence with no blank is its own filled part. */
  lemma {:induction false} AllFilled(s: seq<Input>)
    requires forall j :: 0 <= j < |s| ==> !IsBlank(s[j])
    ensures Blanks(s) == [] && Filled(s) == s
  {
    if s != [] {
      AllFilled(s[1..]);
    }
  }

  /** Setting `required` on the head of a row list keeps its values, its blanks and its filled rows. */
  lemma MarkHead(p: seq<Input>)
    requires p != []
    ensures var y := p[0].(required := true);
            && Values(Filled(p[0 := y])) == Values(Filled(p))
            && Filled(p[0 := y]) == (if IsBlank(p[0]) then Filled(p) else Filled(p)[0 := y])
            && |Blanks(p[0 := y])| == |Blanks(p)|
  {
    var y := p[0].(required := true);
    var q := p[0 := y];
    assert q[0] == y && q[1..] == p[1..];
    var rest := Filled(p[1..]);
    assert Filled(q) == (if IsBlank(y) then [] else [y]) + rest;
    assert Filled(p) == (if IsBlank(p[0]) then [] else [p[0]]) + rest;
    assert Blanks(q) == (if IsBlank(y) then [y] else []) + Blanks(p[1..]);
    assert Blanks(p) == (if IsBlank(p[0]) then [p[0]] else []) + Blanks(p[1..]);
    if !IsBlank(p[0]) {
      assert ([y] + rest)[0 := y] == [y] + rest;
      ValuesUpdate(Filled(p), 0, y);
    }
  }

  /** Replacing an input by one with the same value keeps the values. */
  lemma ValuesUpdate(s: seq<Input>, i: nat, y: Input)
    requires i < |s| && y.value == s[i].value
    ensures Values(s[i := y]) == Values(s)
  {
    assert forall j :: 0 <= j < |s| ==> Values(s[i := y])[j] == Values(s)[j];
  }

  /** The rows of a group with a blank once its vestigials are gone, before `required` is set. */
  lemma KeptRows(g: seq<Input>)
    requires Blanks(g) != []
    ensures var k := FirstBlank(g);
            var p := g[..k + 1] + Filled(g[k + 1..]);
            && Filled(p) == Filled(g)
            && |Blanks(p)| == 1
            && |p| == |Filled(g)| + 1
            && k < |p| && p[..k + 1] == g[..k + 1]
  {
    var k := FirstBlank(g);
    var a, x, b := g[..k], g[k], g[k + 1..];
    assert g == a + [x] + b;
    assert g[..k + 1] == a + [x];
    AllFilled(a);
    AllFilled(Filled(b));
    FilledConcat(a, [x]);
    BlanksConcat(a, [x]);
    FilledConcat(a + [x], b);
    FilledConcat(a + [x], Filled(b));
    BlanksConcat(a + [x], Filled(b));
    BlanksPlusFilled(a);
  }

  /** The rows of a group with a blank after its visit, counted. */
  lemma KeptSettles(g: seq<Input>)
    requires g != [] && Blanks(g) != []
    ensures var k := FirstBlank(g);
            var y := g[0].(required := true);
            var r := (g[..k + 1] + Filled(g[k + 1..]))[0 := y];
            && |Blanks(r)| == 1
            && |r| == |Filled(g)| + 1
            && Filled(r) == (if IsBlank(g[0]) then Filled(g) else Filled(g)[0 := y])
            && Values(Filled(r)) == Values(Filled(g))
            && k < |r| && r[k] == KeptBlank(g)
  {
    var k := FirstBlank(g);
    var p := g[..k + 1] + Filled(g[k + 1..]);
    KeptRows(g);
    assert p[k] == g[k] && p[0] == g[0];
    MarkHead(p);
  }

  lemma SettlesWithBlank(g: seq<Input>, n: string)
    requires g != [] && AllNamed(g, n) && Blanks(g) != []
    ensures var r := GroupStep(g, n);
            && |Blanks(r)| == 1
            && |r| == |Filled(g)| + 1
            && Filled(r) == (if IsBlank(g[0]) then Filled(g) else Filled(g)[0 := g[0].(required := true)])
            && Values(Filled(r)) == Values(Filled(g))
            && FirstBlank(g) < |r| && r[FirstBlank(g)] == KeptBlank(g)
  {
    ShapeWithBlank(g, n);
    KeptSettles(g);
  }

  /** The rows of a group without a blank after its visit, counted. */
  lemma PaddedSettles(g: seq<Input>)
    requires g != [] && Blanks(g) == []
    ensures var y := g[0].(required := true);
            var r := g[0 := y] + [Clone(g[|g| - 1])];
            && |Blanks(r)| == 1
            && |r| == |Filled(g)| + 1 == |g| + 1
            && Filled(r) == (if IsBlank(g[0]) then Filled(g) else Filled(g)[0 := y])
            && Values(Filled(r)) == Values(Filled(g))
  {
    var c := Clone(g[|g| - 1]);
    var p := g + [c];
    var y := g[0].(required := true);
    PaddedRows(g);
    assert p[0] == g[0];
    MarkHead(p);
    assert p[0 := y] == g[0 := y] + [c];
  }

  /** The rows of a group without a blank once the clone is appended, before `required` is set. */
  lemma PaddedRows(g: seq<Input>)
    requires g != [] && Blanks(g) == []
    ensures var p := g + [Clone(g[|g| - 1])];
            && Filled(p) == Filled(g) && |Blanks(p)| == 1 && |Filled(g)| == |g|
  {
    var c := Clone(g[|g| - 1]);
    FilledConcat(g, [c]);
    BlanksConcat(g, [c]);
    BlanksPlusFilled(g);
    assert Filled([c]) == [] && Blanks([c]) == [c];
  }

  lemma SettlesWithoutBlank(g: seq<Input>, n: string)
    requires g != [] && AllNamed(g, n) && Blanks(g) == []
    ensures var r := GroupStep(g, n);
            && |Blanks(r)| == 1
            && |r| == |Filled(g)| + 1 == |g| + 1
            && Filled(r) == (if IsBlank(g[0]) then Filled(g) else Filled(g)[0 := g[0].(required := true)])
            && Values(Filled(r)) == Values(Filled(g))
            && r[..|g|] == g[0 := g[0].(required := true)] && r[|g|] == Clone(g[|g| - 1])
  {
    ShapeWithoutBlank(g, n);
    PaddedSettles(g);
    var y := g[0].(required := true);
    assert (g[0 := y] + [Clone(g[|g| - 1])])[..|g|] == g[0 := y];
  }

  /**
   * The guarantees of index.ts:33 and index.ts:47-65 for one group: exactly one
   * blank, N filled inputs plus 1, the first input required, the filled inputs
   * as they were (but for `required` on the first), the kept blank the group's
   * first blank in its place, and otherwise a clone of the last input appended.
   */
  lemma GroupSettles(g: seq<Input>, n: string)
    requires g != [] && AllNamed(g, n)
    ensures var r := GroupStep(g, n);
            && Settled(r)
            && |r| == |Filled(g)| + 1
            && r[0] == g[0].(required := true)
            && Filled(r) == (if IsBlank(g[0]) then Filled(g) else Filled(g)[0 := g[0].(required := true)])
            && Values(Filled(r)) == Values(Filled(g))
            && (Blanks(g) != [] ==> FirstBlank(g) < |r| && r[FirstBlank(g)] == KeptBlank(g))
            && (Blanks(g) == [] ==> |r| == |g| + 1 && r[..|g|] == g[0 := g[0].(required := true)]
                                    && r[|g|] == Clone(g[|g| - 1]))
  {
    GroupShape(g, n);
    if Blanks(g) != [] {
      SettlesWithBlank(g, n);
    } else {
      SettlesWithoutBlank(g, n);
    }
  }

  // ---------------------------------------------------------------------------
  // The whole form

  /**
   * What `setInputCount` does to group `m` depends on that group alone: it is
   * the visit of that group on its own. Every group ends settled (one blank,
   * first input required) with one row more than it has filled inputs, and no
   * group appears or disappears.
   */
  lemma SetInputCountGroups(elements: seq<Input>, m: string)
    ensures Group(SetInputCount(elements), m) == GroupStep(Group(elements, m), m)
    ensures Group(SetInputCount(elements), m) == [] <==> Group(elements, m) == []
    ensures Group(elements, m) != [] ==>
              && Settled(Group(SetInputCount(elements), m))
              && |Group(SetInputCount(elements), m)| == |Filled(Group(elements, m))| + 1
    ensures Values(Filled(Group(SetInputCount(elements), m))) == Values(Filled(Group(elements, m)))
  {
    GroupOfApply(elements, Names(elements), m);
    var g := Group(elements, m);
    if g != [] {
      GroupSettles(g, m);
    }
  }

  /** Visiting a settled (or absent) group changes nothing. */
  lemma StepOnSettled(s: seq<Input>, n: string)
    requires Group(s, n) == [] || Settled(Group(s, n))
    ensures GroupStep(s, n) == s
  {
    var g := Group(s, n);
    if g != [] {
      VestigialsCount(s, n, false);
      DropNone(s, n, false);
      assert RemoveVestigials(s, n) == s;
      FirstOfGroup(s, n);
      var k := FirstIndex(s, n);
      assert s[k].(required := true) == s[k];
      assert GroupStep(s, n) == MarkFirstRequired(s, n);
    }
  }

  lemma {:induction false} ApplyOnSettled(s: seq<Input>, ns: seq<string>)
    requires forall n :: Group(s, n) == [] || Settled(Group(s, n))
    ensures ApplyGroups(s, ns) == s
  {
    if ns != [] {
      ApplyOnSettled(s, ns[..|ns| - 1]);
      StepOnSettled(s, ns[|ns| - 1]);
    }
  }

  /** Running `setInputCount` on its own output changes nothing (index.ts:34-67 on every keyup). */
  lemma SetInputCountIdempotent(elements: seq<Input>)
    ensures SetInputCount(SetInputCount(elements)) == SetInputCount(elements)
  {
    var r := SetInputCount(elements);
    forall n
      ensures Group(r, n) == [] || Settled(Group(r, n))
    {
      SetInputCountGroups(elements, n);
    }
    ApplyOnSettled(r, Names(r));
  }

  lemma {:induction false} EntriesDrop(s: seq<Input>, n: string, seen: bool, t: nat)
    ensures Entries(DropVestigials(s, n, seen, t)) == Entries(s)
  {
    if s != [] {
      var b := s[0].name == n && IsBlank(s[0]);
      if b && seen && t > 0 {
        EntriesDrop(s[1..], n, true, t - 1);
      } else {
        var d' := DropVestigials(s[1..], n, seen || b, t);
        EntriesDrop(s[1..], n, seen || b, t);
        assert ([s[0]] + d')[0] == s[0] && ([s[0]] + d')[1..] == d';
      }
    }
  }

  lemma EntriesAdd(s: seq<Input>, n: string)
    ensures Entries(AddBlankAfterLast(s, n)) == Entries(s)
  {
    if Group(s, n) != [] {
      var k := LastIndex(s, n);
      assert s == s[..k + 1] + s[k + 1..];
      EntriesConcat(s[..k + 1], s[k + 1..]);
      EntriesSplice(s[..k + 1], Clone(s[k]), s[k + 1..]);
    }
  }

  lemma EntriesMark(s: seq<Input>, n: string)
    ensures Entries(MarkFirstRequired(s, n)) == Entries(s)
  {
    if Group(s, n) != [] {
      var k := FirstIndex(s, n);
      var a, x, b := s[..k], s[k], s[k + 1..];
      assert s == a + [x] + b;
      assert MarkFirstRequired(s, n) == a + [x.(required := true)] + b;
      EntriesSplice(a, x, b);
      EntriesSplice(a, x.(required := true), b);
    }
  }

  lemma EntriesStep(s: seq<Input>, n: string)
    ensures Entries(GroupStep(s, n)) == Entries(s)
  {
    if Group(s, n) != [] {
      var kept := RemoveVestigials(s, n);
      EntriesDrop(s, n, false, Vestigials(s, n, false));
      EntriesAdd(kept, n);
      var padded := if Blanks(Group(s, n)) == [] then AddBlankAfterLast(kept, n) else kept;
      EntriesMark(padded, n);
    }
  }

  lemma {:induction false} EntriesApply(s: seq<Input>, ns: seq<string>)
    ensures Entries(ApplyGroups(s, ns)) == Entries(s)
  {
    if ns != [] {
      EntriesApply(s, ns[..|ns| - 1]);
      EntriesStep(ApplyGroups(s, ns[..|ns| - 1]), ns[|ns| - 1]);
    }
  }

  /**
   * Filled inputs are never removed, added or reordered, and keep their name
   * and value: only blanks come and go, and only `required` flags change.
   */
  lemma SetInputCountKeepsFilled(elements: seq<Input>)
    ensures Entries(SetInputCount(elements)) == Entries(elements)
  {
    EntriesApply(elements, Names(elements));
  }
}
