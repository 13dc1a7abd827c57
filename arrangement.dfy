/**
 * Where `setInputCount` (index.ts:34-67) puts every input of the whole form.
 *
 * `Layout` walks the original form once, in document order, and says what
 * each input becomes: nothing when it is a vestigial blank, otherwise the
 * input itself (marked `required` when it is the first of its group),
 * followed by a cleared clone when it is the last input of a group that had
 * no blank. `SetInputCountLayout` proves that the visits of `InputCount`
 * leave exactly this form: the kept rows stay in their places among the
 * other groups, and each clone sits right after its group's last input.
 */
module Arrangement {
  import opened Inputs
  import opened InputCount

  /**
   * What one original input `x` becomes. `vestigials`, `clones` and `marks`
   * say which parts of the visit of `x`'s group are applied; `last` and
   * `first` say whether `x` is the last or the first input of its group, and
   * `blankBefore` whether a blank of its group comes before it.
   */
  function Piece(x: Input, last: bool, vestigials: bool, clones: bool, marks: bool,
                 first: bool, blankBefore: bool): seq<Input>
  {
    if vestigials && IsBlank(x) && blankBefore then []
    else
      [if marks && first then x.(required := true) else x]
      + (if clones && last && !blankBefore && !IsBlank(x) then [Clone(x)] else [])
  }

  /**
   * The form `s` with the parts `D` (vestigials removed), `C` (clone added)
   * and `M` (first input marked) of the visits applied to the groups they
   * name. `seen` holds the names met before `s`, `blanks` the names whose
   * blank was met before `s`.
   */
  function Layout(s: seq<Input>, D: set<string>, C: set<string>, M: set<string>,
                  seen: set<string>, blanks: set<string>): seq<Input>
  {
    if s == [] then []
    else
      var x := s[0];
      var n := x.name;
      Piece(x, Group(s[1..], n) == [], n in D, n in C, n in M, n !in seen, n in blanks)
      + Layout(s[1..], D, C, M, seen + {n}, if IsBlank(x) then blanks + {n} else blanks)
  }

  function NameSet(ns: seq<string>): set<string> {
    set n | n in ns
  }

  /** The form after every visit: each input of `elements` in turn, as `Piece` places it. */
  function Arranged(elements: seq<Input>): seq<Input> {
    var all := NameSet(Names(elements));
    Layout(elements, all, all, all, {}, {})
  }

  // ---------------------------------------------------------------------------
  // The whole form

  /** `setInputCount` leaves the form `Arranged` describes. */
  lemma SetInputCountLayout(elements: seq<Input>)
    ensures SetInputCount(elements) == Arranged(elements)
  {
    ApplyLayout(elements, Names(elements));
  }

  /** After the visits of the distinct groups `ns`, every input sits where `Layout` puts it. */
  lemma {:induction false} ApplyLayout(e: seq<Input>, ns: seq<string>)
    requires Distinct(ns)
    ensures var V := NameSet(ns);
            ApplyGroups(e, ns) == Layout(e, V, V, V, {}, {})
    decreases |ns|
  {
    if ns == [] {
      assert NameSet(ns) == {};
      LayoutNone(e, {}, {});
    } else {
      var init := ns[..|ns| - 1];
      var n := ns[|ns| - 1];
      assert ns == init + [n];
      assert Distinct(init);
      ApplyLayout(e, init);
      var V := NameSet(init);
      assert n !in V;
      StepLayout(e, V, n);
      assert NameSet(ns) == V + {n};
    }
  }

  /** The visit of one more group `n` applies its three parts to `n` in `Layout`. */
  lemma StepLayout(e: seq<Input>, V: set<string>, n: string)
    requires n !in V
    ensures GroupStep(Layout(e, V, V, V, {}, {}), n) == Layout(e, V + {n}, V + {n}, V + {n}, {}, {})
  {
    var L := Layout(e, V, V, V, {}, {});
    UnvisitedGroup(e, V, V, V, {}, {}, n);
    if Group(e, n) == [] {
      LayoutAbsent(e, V, V, V, {}, {}, n);
    } else {
      StepUnfolds(L, n);
      DropAllRemoves(L, n, false);
      DropLayout(e, V, V, V, {}, {}, n);
      var kept := Layout(e, V + {n}, V, V, {}, {});
      assert RemoveVestigials(L, n) == kept;
      var padded := Layout(e, V + {n}, V + {n}, V, {}, {});
      if Blanks(Group(e, n)) == [] {
        AddLayout(e, V + {n}, V, V, {}, {}, n);
        AddAfterIs(kept, n);
      } else {
        CloneIdle(e, V + {n}, V, V, {}, {}, n);
        assert kept == padded;
      }
      MarkLayout(e, V + {n}, V + {n}, V, {}, {}, n);
      MarkFirstIs(padded, n);
    }
  }

  // ---------------------------------------------------------------------------
  // What the placement says

  /**
   * `last.after(input)`: in the final form, the clone of a group that had
   * no blank comes right after (the image of) that group's last original
   * input, and no input of the group follows it.
   */
  lemma CloneFollowsLast(e: seq<Input>, m: string) returns (before: seq<Input>, y: Input, after: seq<Input>)
    requires Group(e, m) != [] && Blanks(Group(e, m)) == []
    ensures var x := e[LastIndex(e, m)];
            && SetInputCount(e) == before + [y, Clone(x)] + after
            && y.name == x.name && y.value == x.value
            && Group(after, m) == []
  {
    SetInputCountLayout(e);
    var all := NameSet(Names(e));
    assert m in all;
    before, y, after := CloneInLayout(e, all, {}, {}, m);
  }

  lemma {:induction false} CloneInLayout(s: seq<Input>, all: set<string>, seen: set<string>, blanks: set<string>, m: string)
    returns (before: seq<Input>, y: Input, after: seq<Input>)
    requires m in all && m !in blanks
    requires Group(s, m) != [] && Blanks(Group(s, m)) == []
    ensures var x := s[LastIndex(s, m)];
            && Layout(s, all, all, all, seen, blanks) == before + [y, Clone(x)] + after
            && y.name == x.name && y.value == x.value
            && Group(after, m) == []
    decreases |s|
  {
    var x := s[0];
    if x.name == m && Group(s[1..], m) == [] {
      y, after := CloneHere(s, all, seen, blanks, m);
      before := [];
      assert before + [y, Clone(x)] + after == [y, Clone(x)] + after;
    } else {
      var seen' := seen + {x.name};
      var blanks' := if IsBlank(x) then blanks + {x.name} else blanks;
      CloneLater(s, blanks, m);
      var before';
      before', y, after := CloneInLayout(s[1..], all, seen', blanks', m);
      LayoutCons(s, all, all, all, seen, blanks);
      var last := Group(s[1..], x.name) == [];
      var p := Piece(x, last, x.name in all, x.name in all, x.name in all, x.name !in seen, x.name in blanks);
      before := p + before';
      var z := s[1..][LastIndex(s[1..], m)];
      assert s[LastIndex(s, m)] == z;
      Regroup(p, before', [y, Clone(z)], after);
    }
  }

  /** The last input of a blank-free group heads `s`: its piece is the input and its clone. */
  lemma CloneHere(s: seq<Input>, all: set<string>, seen: set<string>, blanks: set<string>, m: string)
    returns (y: Input, after: seq<Input>)
    requires s != [] && s[0].name == m && Group(s[1..], m) == []
    requires m in all && m !in blanks && Blanks(Group(s, m)) == []
    ensures var x := s[LastIndex(s, m)];
            && Layout(s, all, all, all, seen, blanks) == [y, Clone(x)] + after
            && y.name == x.name && y.value == x.value
            && Group(after, m) == []
  {
    var x := s[0];
    LastAlone(s, m);
    y := if m !in seen then x.(required := true) else x;
    after := Layout(s[1..], all, all, all, seen + {m}, blanks);
    LayoutCons(s, all, all, all, seen, blanks);
    LastPiece(x, m !in seen);
    LayoutKeepsAbsent(s[1..], all, all, all, seen + {m}, blanks, m);
  }

  lemma LastPiece(x: Input, first: bool)
    requires !IsBlank(x)
    ensures Piece(x, true, true, true, true, first, false)
            == [if first then x.(required := true) else x, Clone(x)]
  {
  }

  lemma LastAlone(s: seq<Input>, m: string)
    requires s != [] && s[0].name == m && Group(s[1..], m) == [] && Blanks(Group(s, m)) == []
    ensures !IsBlank(s[0]) && LastIndex(s, m) == 0
  {
    assert Group(s, m) == [s[0]];
  }

  /** Past an input that is not the last of the blank-free group `m`, the search goes on in the tail. */
  lemma CloneLater(s: seq<Input>, blanks: set<string>, m: string)
    requires s != [] && !(s[0].name == m && Group(s[1..], m) == [])
    requires m !in blanks && Group(s, m) != [] && Blanks(Group(s, m)) == []
    ensures Group(s[1..], m) != [] && Blanks(Group(s[1..], m)) == []
    ensures m !in (if IsBlank(s[0]) then blanks + {s[0].name} else blanks)
    ensures LastIndex(s, m) == 1 + LastIndex(s[1..], m)
  {
    var x := s[0];
    if x.name == m {
      assert Group(s, m) == [x] + Group(s[1..], m);
      BlanksConcat([x], Group(s[1..], m));
    } else {
      assert Group(s, m) == Group(s[1..], m);
    }
  }

  lemma Regroup(p: seq<Input>, a: seq<Input>, b: seq<Input>, c: seq<Input>)
    ensures p + (a + b + c) == p + a + b + c
  {
  }

  /** One step of `Layout`. */
  lemma LayoutCons(s: seq<Input>, D: set<string>, C: set<string>, M: set<string>,
                   seen: set<string>, blanks: set<string>)
    requires s != []
    ensures var x := s[0];
            var n := x.name;
            Layout(s, D, C, M, seen, blanks)
            == Piece(x, Group(s[1..], n) == [], n in D, n in C, n in M, n !in seen, n in blanks)
               + Layout(s[1..], D, C, M, seen + {n}, if IsBlank(x) then blanks + {n} else blanks)
  {
  }

  /** The form with vestigials removed and first inputs marked, and nothing added. */
  function Tidied(elements: seq<Input>): seq<Input> {
    var all := NameSet(Names(elements));
    Layout(elements, all, {}, all, {}, {})
  }

  /** An input of the final form that `setInputCount` added: a blank of a group that had none in `e`. */
  predicate Added(e: seq<Input>, x: Input) {
    IsBlank(x) && Blanks(Group(e, x.name)) == []
  }

  function WithoutAdded(e: seq<Input>, r: seq<Input>): seq<Input> {
    if r == [] then []
    else if Added(e, r[0]) then WithoutAdded(e, r[1..])
    else [r[0]] + WithoutAdded(e, r[1..])
  }

  /**
   * Taking the added clones out of the final form leaves the original form
   * with its vestigials removed and each group's first input marked: every
   * kept row stays in its place among the other groups' rows.
   */
  lemma ClonesAside(elements: seq<Input>)
    ensures WithoutAdded(elements, SetInputCount(elements)) == Tidied(elements)
  {
    SetInputCountLayout(elements);
    var all := NameSet(Names(elements));
    WithoutAddedLayout(elements, elements, all, all, all, {}, {});
  }

  lemma {:induction false} WithoutAddedLayout(e: seq<Input>, s: seq<Input>, D: set<string>, C: set<string>,
                                              M: set<string>, seen: set<string>, blanks: set<string>)
    requires forall n :: Blanks(Group(e, n)) == [] <==> n !in blanks && Blanks(Group(s, n)) == []
    ensures WithoutAdded(e, Layout(s, D, C, M, seen, blanks)) == Layout(s, D, {}, M, seen, blanks)
    decreases |s|
  {
    if s != [] {
      var x := s[0];
      var n := x.name;
      var seen' := seen + {n};
      var blanks' := if IsBlank(x) then blanks + {n} else blanks;
      var last := Group(s[1..], n) == [];
      var p := Piece(x, last, n in D, n in C, n in M, n !in seen, n in blanks);
      var rest := Layout(s[1..], D, C, M, seen', blanks');
      assert Layout(s, D, C, M, seen, blanks) == p + rest;
      forall k
        ensures Blanks(Group(e, k)) == [] <==> k !in blanks' && Blanks(Group(s[1..], k)) == []
      {
        if k == n {
          assert Group(s, k) == [x] + Group(s[1..], k);
          BlanksConcat([x], Group(s[1..], k));
        } else {
          assert Group(s, k) == Group(s[1..], k);
        }
      }
      assert Group(s, n) == [x] + Group(s[1..], n);
      BlanksConcat([x], Group(s[1..], n));
      WithoutAddedLayout(e, s[1..], D, C, M, seen', blanks');
      WithoutAddedConcat(e, p, rest);
      PieceWithoutAdded(e, x, last, n in D, n in C, n in M, n !in seen, n in blanks);
    }
  }

  /** In a piece, only the clone can be an added input, and it is one exactly when it was added. */
  lemma PieceWithoutAdded(e: seq<Input>, x: Input, last: bool, vestigials: bool, clones: bool, marks: bool,
                          first: bool, blankBefore: bool)
    requires Blanks(Group(e, x.name)) == [] ==> !IsBlank(x)
    requires last && !blankBefore && !IsBlank(x) ==> Blanks(Group(e, x.name)) == []
    ensures WithoutAdded(e, Piece(x, last, vestigials, clones, marks, first, blankBefore))
            == Piece(x, last, vestigials, false, marks, first, blankBefore)
  {
    var y := if marks && first then x.(required := true) else x;
    assert !Added(e, y);
    assert WithoutAdded(e, [y]) == [y];
    if clones && last && !blankBefore && !IsBlank(x) {
      assert Added(e, Clone(x));
      assert [y, Clone(x)][1..] == [Clone(x)] && [Clone(x)][1..] == [];
      assert WithoutAdded(e, [y, Clone(x)]) == [y];
    }
  }

  lemma {:induction false} WithoutAddedConcat(e: seq<Input>, a: seq<Input>, b: seq<Input>)
    ensures WithoutAdded(e, a + b) == WithoutAdded(e, a) + WithoutAdded(e, b)
    decreases |a|
  {
    if a == [] {
      assert a + b == b;
    } else {
      var t := a[1..];
      WithoutAddedConcat(e, t, b);
      assert (a + b)[0] == a[0] && (a + b)[1..] == t + b;
      if !Added(e, a[0]) {
        assert [a[0]] + (WithoutAdded(e, t) + WithoutAdded(e, b))
               == [a[0]] + WithoutAdded(e, t) + WithoutAdded(e, b);
      }
    }
  }

  // ---------------------------------------------------------------------------
  // Each part of a visit, placed

  /** Removing every later blank of group `n`, as a filter in one pass. */
  function DropLaterBlanks(s: seq<Input>, n: string, seen: bool): seq<Input> {
    if s == [] then []
    else
      var b := s[0].name == n && IsBlank(s[0]);
      if b && seen then DropLaterBlanks(s[1..], n, true)
      else [s[0]] + DropLaterBlanks(s[1..], n, seen || b)
  }

  /** Removing the collected vestigials is that filter. */
  lemma {:induction false} DropAllRemoves(s: seq<Input>, n: string, seen: bool)
    ensures DropVestigials(s, n, seen, Vestigials(s, n, seen)) == DropLaterBlanks(s, n, seen)
    decreases |s|
  {
    if s != [] {
      var b := s[0].name == n && IsBlank(s[0]);
      DropAllRemoves(s[1..], n, seen || b);
    }
  }

  /** The vestigials of an unvisited group `n` drop out of `Layout` where they stand. */
  lemma {:induction false} DropLayout(s: seq<Input>, D: set<string>, C: set<string>, M: set<string>,
                                      seen: set<string>, blanks: set<string>, n: string)
    requires n !in D && n !in C && n !in M
    ensures DropLaterBlanks(Layout(s, D, C, M, seen, blanks), n, n in blanks)
            == Layout(s, D + {n}, C, M, seen, blanks)
    decreases |s|
  {
    if s != [] {
      var x := s[0];
      var seen' := seen + {x.name};
      var blanks' := if IsBlank(x) then blanks + {x.name} else blanks;
      DropLayout(s[1..], D, C, M, seen', blanks', n);
      var last := Group(s[1..], x.name) == [];
      var p := Piece(x, last, x.name in D, x.name in C, x.name in M, x.name !in seen, x.name in blanks);
      var rest := Layout(s[1..], D, C, M, seen', blanks');
      assert Layout(s, D, C, M, seen, blanks) == p + rest;
      if x.name == n {
        assert p == [x];
        assert ([x] + rest)[0] == x && ([x] + rest)[1..] == rest;
      } else {
        PieceNamed(x, last, x.name in D, x.name in C, x.name in M, x.name !in seen, x.name in blanks);
        DropOther(p, rest, n, n in blanks);
      }
    }
  }

  /** Inputs of other groups pass the filter unchanged. */
  lemma {:induction false} DropOther(a: seq<Input>, b: seq<Input>, n: string, seen: bool)
    requires forall i :: 0 <= i < |a| ==> a[i].name != n
    ensures DropLaterBlanks(a + b, n, seen) == a + DropLaterBlanks(b, n, seen)
    decreases |a|
  {
    if a == [] {
      assert a + b == b;
    } else {
      var t := a[1..];
      DropOther(t, b, n, seen);
      assert a + b == [a[0]] + (t + b);
      DropPastHead(a[0], t + b, n, seen);
      assert [a[0]] + (t + DropLaterBlanks(b, n, seen)) == a + DropLaterBlanks(b, n, seen);
    }
  }

  lemma DropPastHead(x: Input, t: seq<Input>, n: string, seen: bool)
    requires x.name != n
    ensures DropLaterBlanks([x] + t, n, seen) == [x] + DropLaterBlanks(t, n, seen)
  {
    assert ([x] + t)[0] == x && ([x] + t)[1..] == t;
  }

  /** The clone of a blank-free group `n` lands right after the group's last input. */
  lemma {:induction false} AddLayout(s: seq<Input>, D: set<string>, C: set<string>, M: set<string>,
                                     seen: set<string>, blanks: set<string>, n: string)
    requires n !in C && n !in M && n !in blanks && Blanks(Group(s, n)) == []
    ensures AddAfter(Layout(s, D, C, M, seen, blanks), n) == Layout(s, D, C + {n}, M, seen, blanks)
    decreases |s|
  {
    if s != [] {
      var x := s[0];
      var seen' := seen + {x.name};
      var blanks' := if IsBlank(x) then blanks + {x.name} else blanks;
      var last := Group(s[1..], x.name) == [];
      var p := Piece(x, last, x.name in D, x.name in C, x.name in M, x.name !in seen, x.name in blanks);
      var rest := Layout(s[1..], D, C, M, seen', blanks');
      assert Layout(s, D, C, M, seen, blanks) == p + rest;
      if x.name == n {
        if Group(s[1..], n) != [] {
          assert Group(s, n) == [x] + Group(s[1..], n);
          BlanksConcat([x], Group(s[1..], n));
          AddLayout(s[1..], D, C, M, seen', blanks', n);
        }
        AddHere(s, D, C, M, seen, blanks, n);
      } else {
        assert Group(s, n) == Group(s[1..], n);
        AddLayout(s[1..], D, C, M, seen', blanks', n);
        PieceNamed(x, last, x.name in D, x.name in C, x.name in M, x.name !in seen, x.name in blanks);
        AddOther(p, rest, n);
      }
    }
  }

  /** The induction step of `AddLayout` at an input of group `n`. */
  lemma {:induction false} AddHere(s: seq<Input>, D: set<string>, C: set<string>, M: set<string>,
                                   seen: set<string>, blanks: set<string>, n: string)
    requires s != [] && s[0].name == n
    requires n !in C && n !in M && n !in blanks && Blanks(Group(s, n)) == []
    requires Group(s[1..], n) != [] ==>
             var blanks' := if IsBlank(s[0]) then blanks + {n} else blanks;
             AddAfter(Layout(s[1..], D, C, M, seen + {n}, blanks'), n)
             == Layout(s[1..], D, C + {n}, M, seen + {n}, blanks')
    ensures AddAfter(Layout(s, D, C, M, seen, blanks), n) == Layout(s, D, C + {n}, M, seen, blanks)
    decreases |s|
  {
    var x := s[0];
    assert !IsBlank(x) by {
      assert Group(s, n) == [x] + Group(s[1..], n);
      BlanksConcat([x], Group(s[1..], n));
    }
    var seen' := seen + {n};
    var rest := Layout(s[1..], D, C, M, seen', blanks);
    assert Layout(s, D, C, M, seen, blanks) == [x] + rest;
    assert ([x] + rest)[0] == x && ([x] + rest)[1..] == rest;
    if Group(s[1..], n) == [] {
      LayoutKeepsAbsent(s[1..], D, C, M, seen', blanks, n);
      LayoutAbsentClone(s[1..], D, C, M, seen', blanks, n);
      assert Layout(s, D, C + {n}, M, seen, blanks) == [x, Clone(x)] + rest;
    } else {
      LayoutKeepsPresent(s[1..], D, C, M, seen', blanks, n);
    }
  }

  /** Inputs of other groups before the insertion point stay where they are. */
  lemma {:induction false} AddOther(a: seq<Input>, b: seq<Input>, n: string)
    requires forall i :: 0 <= i < |a| ==> a[i].name != n
    ensures AddAfter(a + b, n) == a + AddAfter(b, n)
    decreases |a|
  {
    if a == [] {
      assert a + b == b;
    } else {
      var t := a[1..];
      AddOther(t, b, n);
      assert a + b == [a[0]] + (t + b);
      assert ([a[0]] + (t + b))[1..] == t + b;
      assert [a[0]] + (t + AddAfter(b, n)) == a + AddAfter(b, n);
    }
  }

  /** `AddBlankAfterLast` read one input at a time. */
  function AddAfter(s: seq<Input>, n: string): seq<Input> {
    if s == [] then []
    else if s[0].name == n && Group(s[1..], n) == [] then [s[0], Clone(s[0])] + s[1..]
    else [s[0]] + AddAfter(s[1..], n)
  }

  /** Inserting after the last input found by position is `AddAfter`. */
  lemma {:induction false} AddAfterIs(s: seq<Input>, n: string)
    ensures AddBlankAfterLast(s, n) == AddAfter(s, n)
    decreases |s|
  {
    if s != [] {
      AddAfterIs(s[1..], n);
      if s[0].name == n && Group(s[1..], n) == [] {
        AddAtHead(s, n);
      } else {
        AddPastHead(s, n);
      }
    }
  }

  lemma AddAtHead(s: seq<Input>, n: string)
    requires s != [] && s[0].name == n && Group(s[1..], n) == []
    ensures AddBlankAfterLast(s, n) == [s[0], Clone(s[0])] + s[1..]
  {
    assert LastIndex(s, n) == 0;
    assert s[..1] == [s[0]];
  }

  lemma AddPastHead(s: seq<Input>, n: string)
    requires s != [] && !(s[0].name == n && Group(s[1..], n) == [])
    ensures AddBlankAfterLast(s, n) == [s[0]] + AddBlankAfterLast(s[1..], n)
  {
    if Group(s[1..], n) == [] {
      assert Group(s, n) == [];
      assert s == [s[0]] + s[1..];
    } else {
      AddBeforeLast(s, n);
    }
  }

  lemma AddBeforeLast(s: seq<Input>, n: string)
    requires s != [] && Group(s[1..], n) != []
    ensures AddBlankAfterLast(s, n) == [s[0]] + AddBlankAfterLast(s[1..], n)
  {
    var k := LastIndex(s[1..], n);
    assert Group(s, n) != [];
    assert LastIndex(s, n) == k + 1;
    assert s[k + 1] == s[1..][k];
    assert s[..k + 2] == [s[0]] + s[1..][..k + 1];
    assert s[k + 2..] == s[1..][k + 1..];
  }

  /** Only the first input of an unmarked group `n` gets `required`. */
  lemma {:induction false} MarkLayout(s: seq<Input>, D: set<string>, C: set<string>, M: set<string>,
                                      seen: set<string>, blanks: set<string>, n: string)
    requires n !in M && n !in seen && n !in blanks
    ensures MarkFirst(Layout(s, D, C, M, seen, blanks), n) == Layout(s, D, C, M + {n}, seen, blanks)
    decreases |s|
  {
    if s != [] {
      var x := s[0];
      var seen' := seen + {x.name};
      var blanks' := if IsBlank(x) then blanks + {x.name} else blanks;
      var last := Group(s[1..], x.name) == [];
      var p := Piece(x, last, x.name in D, x.name in C, x.name in M, x.name !in seen, x.name in blanks);
      var rest := Layout(s[1..], D, C, M, seen', blanks');
      assert Layout(s, D, C, M, seen, blanks) == p + rest;
      if x.name == n {
        MarkHere(s, D, C, M, seen, blanks, n);
      } else {
        MarkLayout(s[1..], D, C, M, seen', blanks', n);
        PieceNamed(x, last, x.name in D, x.name in C, x.name in M, x.name !in seen, x.name in blanks);
        MarkOther(p, rest, n);
      }
    }
  }

  /** The induction step of `MarkLayout` at the first input of group `n`. */
  lemma MarkHere(s: seq<Input>, D: set<string>, C: set<string>, M: set<string>,
                 seen: set<string>, blanks: set<string>, n: string)
    requires s != [] && s[0].name == n
    requires n !in M && n !in seen && n !in blanks
    ensures MarkFirst(Layout(s, D, C, M, seen, blanks), n) == Layout(s, D, C, M + {n}, seen, blanks)
  {
    var x := s[0];
    var blanks' := if IsBlank(x) then blanks + {n} else blanks;
    var tail := if n in C && Group(s[1..], n) == [] && !IsBlank(x) then [Clone(x)] else [];
    var rest := Layout(s[1..], D, C, M, seen + {n}, blanks');
    FirstUnmarked(s, D, C, M, seen, blanks);
    FirstMarked(s, D, C, M, seen, blanks);
    MarkFirstAtHead(x, tail + rest, n);
  }

  /** Before the mark part, the first input of its group heads its piece as it is. */
  lemma FirstUnmarked(s: seq<Input>, D: set<string>, C: set<string>, M: set<string>,
                      seen: set<string>, blanks: set<string>)
    requires s != [] && s[0].name !in M && s[0].name !in seen && s[0].name !in blanks
    ensures var x := s[0];
            var n := x.name;
            Layout(s, D, C, M, seen, blanks)
            == [x] + ((if n in C && Group(s[1..], n) == [] && !IsBlank(x) then [Clone(x)] else [])
                      + Layout(s[1..], D, C, M, seen + {n}, if IsBlank(x) then blanks + {n} else blanks))
  {
  }

  /** With the mark part, the first input of its group is marked and the rest is as before. */
  lemma FirstMarked(s: seq<Input>, D: set<string>, C: set<string>, M: set<string>,
                    seen: set<string>, blanks: set<string>)
    requires s != [] && s[0].name !in M && s[0].name !in seen && s[0].name !in blanks
    ensures var x := s[0];
            var n := x.name;
            Layout(s, D, C, M + {n}, seen, blanks)
            == [x.(required := true)]
               + ((if n in C && Group(s[1..], n) == [] && !IsBlank(x) then [Clone(x)] else [])
                  + Layout(s[1..], D, C, M, seen + {n}, if IsBlank(x) then blanks + {n} else blanks))
  {
    var x := s[0];
    var n := x.name;
    MarkSeen(s[1..], D, C, M, seen + {n}, if IsBlank(x) then blanks + {n} else blanks, n);
  }

  lemma MarkFirstAtHead(x: Input, t: seq<Input>, n: string)
    requires x.name == n
    ensures MarkFirst([x] + t, n) == [x.(required := true)] + t
  {
    assert ([x] + t)[0] == x && ([x] + t)[1..] == t;
  }

  /** Inputs of other groups before the first input of `n` keep their `required`. */
  lemma {:induction false} MarkOther(a: seq<Input>, b: seq<Input>, n: string)
    requires forall i :: 0 <= i < |a| ==> a[i].name != n
    ensures MarkFirst(a + b, n) == a + MarkFirst(b, n)
    decreases |a|
  {
    if a == [] {
      assert a + b == b;
    } else {
      var t := a[1..];
      MarkOther(t, b, n);
      assert a + b == [a[0]] + (t + b);
      assert ([a[0]] + (t + b))[1..] == t + b;
      assert [a[0]] + (t + MarkFirst(b, n)) == a + MarkFirst(b, n);
    }
  }

  /** `MarkFirstRequired` read one input at a time. */
  function MarkFirst(s: seq<Input>, n: string): seq<Input> {
    if s == [] then []
    else if s[0].name == n then [s[0].(required := true)] + s[1..]
    else [s[0]] + MarkFirst(s[1..], n)
  }

  /** Marking the first input found by position is `MarkFirst`. */
  lemma {:induction false} MarkFirstIs(s: seq<Input>, n: string)
    ensures MarkFirstRequired(s, n) == MarkFirst(s, n)
    decreases |s|
  {
    if s != [] {
      MarkFirstIs(s[1..], n);
      if s[0].name == n {
        assert FirstIndex(s, n) == 0;
      } else {
        MarkPastHead(s, n);
      }
    }
  }

  lemma MarkPastHead(s: seq<Input>, n: string)
    requires s != [] && s[0].name != n
    ensures MarkFirstRequired(s, n) == [s[0]] + MarkFirstRequired(s[1..], n)
  {
    if Group(s[1..], n) == [] {
      assert Group(s, n) == [];
      assert s == [s[0]] + s[1..];
    } else {
      var k := FirstIndex(s[1..], n);
      assert FirstIndex(s, n) == k + 1;
      assert s[k + 1 := s[k + 1].(required := true)] == [s[0]] + s[1..][k := s[1..][k].(required := true)];
    }
  }

  // ---------------------------------------------------------------------------
  // When a part changes nothing

  /** With no part applied, `Layout` is the form itself. */
  lemma {:induction false} LayoutNone(s: seq<Input>, seen: set<string>, blanks: set<string>)
    ensures Layout(s, {}, {}, {}, seen, blanks) == s
    decreases |s|
  {
    if s != [] {
      var x := s[0];
      LayoutNone(s[1..], seen + {x.name}, if IsBlank(x) then blanks + {x.name} else blanks);
    }
  }

  /** A group with no input in `s` places nothing, whatever parts are applied to it. */
  lemma {:induction false} LayoutAbsent(s: seq<Input>, D: set<string>, C: set<string>, M: set<string>,
                                        seen: set<string>, blanks: set<string>, n: string)
    requires Group(s, n) == []
    ensures Layout(s, D + {n}, C + {n}, M + {n}, seen, blanks) == Layout(s, D, C, M, seen, blanks)
    decreases |s|
  {
    if s != [] {
      var x := s[0];
      assert x.name != n && Group(s[1..], n) == [];
      LayoutAbsent(s[1..], D, C, M, seen + {x.name}, if IsBlank(x) then blanks + {x.name} else blanks, n);
    }
  }

  /** The same, for the clone part alone. */
  lemma {:induction false} LayoutAbsentClone(s: seq<Input>, D: set<string>, C: set<string>, M: set<string>,
                                             seen: set<string>, blanks: set<string>, n: string)
    requires Group(s, n) == []
    ensures Layout(s, D, C + {n}, M, seen, blanks) == Layout(s, D, C, M, seen, blanks)
    decreases |s|
  {
    if s != [] {
      var x := s[0];
      assert x.name != n && Group(s[1..], n) == [];
      LayoutAbsentClone(s[1..], D, C, M, seen + {x.name}, if IsBlank(x) then blanks + {x.name} else blanks, n);
    }
  }

  /** A group that already had a blank gets no clone: the clone part changes nothing. */
  lemma {:induction false} CloneIdle(s: seq<Input>, D: set<string>, C: set<string>, M: set<string>,
                                     seen: set<string>, blanks: set<string>, n: string)
    requires Blanks(Group(s, n)) != [] || n in blanks
    ensures Layout(s, D, C, M, seen, blanks) == Layout(s, D, C + {n}, M, seen, blanks)
    decreases |s|
  {
    if s != [] {
      var x := s[0];
      var blanks' := if IsBlank(x) then blanks + {x.name} else blanks;
      if x.name == n {
        assert Group(s, n) == [x] + Group(s[1..], n);
        BlanksConcat([x], Group(s[1..], n));
      } else {
        assert Group(s, n) == Group(s[1..], n);
      }
      CloneIdle(s[1..], D, C, M, seen + {x.name}, blanks', n);
    }
  }

  /** Once the first input of `n` is behind, the mark part changes nothing. */
  lemma {:induction false} MarkSeen(s: seq<Input>, D: set<string>, C: set<string>, M: set<string>,
                                    seen: set<string>, blanks: set<string>, n: string)
    requires n in seen
    ensures Layout(s, D, C, M + {n}, seen, blanks) == Layout(s, D, C, M, seen, blanks)
    decreases |s|
  {
    if s != [] {
      var x := s[0];
      MarkSeen(s[1..], D, C, M, seen + {x.name}, if IsBlank(x) then blanks + {x.name} else blanks, n);
    }
  }

  // ---------------------------------------------------------------------------
  // Names in the layout

  /** A piece holds inputs of `x`'s group only. */
  lemma PieceNamed(x: Input, last: bool, vestigials: bool, clones: bool, marks: bool,
                   first: bool, blankBefore: bool)
    ensures AllNamed(Piece(x, last, vestigials, clones, marks, first, blankBefore), x.name)
  {
  }

  /** An unvisited group keeps its inputs, in order, in `Layout`. */
  lemma {:induction false} UnvisitedGroup(s: seq<Input>, D: set<string>, C: set<string>, M: set<string>,
                                          seen: set<string>, blanks: set<string>, n: string)
    requires n !in D && n !in C && n !in M
    ensures Group(Layout(s, D, C, M, seen, blanks), n) == Group(s, n)
    decreases |s|
  {
    if s != [] {
      var x := s[0];
      var seen' := seen + {x.name};
      var blanks' := if IsBlank(x) then blanks + {x.name} else blanks;
      var last := Group(s[1..], x.name) == [];
      var p := Piece(x, last, x.name in D, x.name in C, x.name in M, x.name !in seen, x.name in blanks);
      var rest := Layout(s[1..], D, C, M, seen', blanks');
      UnvisitedGroup(s[1..], D, C, M, seen', blanks', n);
      GroupConcat(p, rest, n);
      if x.name != n {
        PieceNamed(x, last, x.name in D, x.name in C, x.name in M, x.name !in seen, x.name in blanks);
        GroupAbsent(p, n);
      }
    }
  }

  /** `Layout` never brings in an input of a group that `s` lacks. */
  lemma {:induction false} LayoutKeepsAbsent(s: seq<Input>, D: set<string>, C: set<string>, M: set<string>,
                                             seen: set<string>, blanks: set<string>, n: string)
    requires Group(s, n) == []
    ensures Group(Layout(s, D, C, M, seen, blanks), n) == []
    decreases |s|
  {
    if s != [] {
      var x := s[0];
      var seen' := seen + {x.name};
      var blanks' := if IsBlank(x) then blanks + {x.name} else blanks;
      var last := Group(s[1..], x.name) == [];
      var p := Piece(x, last, x.name in D, x.name in C, x.name in M, x.name !in seen, x.name in blanks);
      assert x.name != n && Group(s[1..], n) == [];
      LayoutKeepsAbsent(s[1..], D, C, M, seen', blanks', n);
      PieceNamed(x, last, x.name in D, x.name in C, x.name in M, x.name !in seen, x.name in blanks);
      GroupAbsent(p, n);
      GroupConcat(p, Layout(s[1..], D, C, M, seen', blanks'), n);
    }
  }

  /** The first input of a group is never dropped, so a group present in `s` stays present. */
  lemma {:induction false} LayoutKeepsPresent(s: seq<Input>, D: set<string>, C: set<string>, M: set<string>,
                                              seen: set<string>, blanks: set<string>, n: string)
    requires Group(s, n) != [] && n !in blanks
    ensures Group(Layout(s, D, C, M, seen, blanks), n) != []
    decreases |s|
  {
    var x := s[0];
    var seen' := seen + {x.name};
    var blanks' := if IsBlank(x) then blanks + {x.name} else blanks;
    var last := Group(s[1..], x.name) == [];
    var p := Piece(x, last, x.name in D, x.name in C, x.name in M, x.name !in seen, x.name in blanks);
    var rest := Layout(s[1..], D, C, M, seen', blanks');
    GroupConcat(p, rest, n);
    if x.name == n {
      assert p[0].name == n;
      assert Group(p, n) != [];
    } else {
      assert Group(s[1..], n) != [];
      LayoutKeepsPresent(s[1..], D, C, M, seen', blanks', n);
    }
  }
}
