/**
 Removing the prey a predator killed from the ordered prey list.

 The source first collects the killed indices in increasing order and then
 removes them one at a time, from the highest index to the lowest, so that
 no removal shifts an index still waiting to be removed. `RemoveMarked`
 models that procedure; `Survivors` is the independent reference: the list
 with the dead positions dropped and the rest kept in order.
 */
module Removal {

  /** `s` without its element at index `i`; the later elements shift down by one. */
  function RemoveAt<T>(s: seq<T>, i: nat): (r: seq<T>)
    requires i < |s|
    ensures |r| == |s| - 1
    ensures forall k :: 0 <= k < i ==> r[k] == s[k]
    ensures forall k :: i <= k < |r| ==> r[k] == s[k + 1]
  {
    s[..i] + s[i + 1..]
  }

  predicate StrictlyIncreasing(xs: seq<nat>)
  {
    forall i, j :: 0 <= i < j < |xs| ==> xs[i] < xs[j]
  }

  /** Every mark is an index of `s`. */
  predicate MarksIn<T>(marks: seq<nat>, s: seq<T>)
  {
    forall k :: 0 <= k < |marks| ==> marks[k] < |s|
  }

  /** Removes the positions listed in `marks`, taking the last mark first. */
  function RemoveMarked<T>(s: seq<T>, marks: seq<nat>): (r: seq<T>)
    requires StrictlyIncreasing(marks) && MarksIn(marks, s)
    ensures |r| + |marks| == |s|
    decreases |marks|
  {
    if |marks| == 0 then s
    else
      var last := marks[|marks| - 1];
      RemoveMarked(RemoveAt(s, last), marks[..|marks| - 1])
  }

  /**
   The elements of `s` whose positions, counted from `base`, are not in
   `dead`, in their original order.
   */
  function SurvivorsFrom<T>(s: seq<T>, dead: set<nat>, base: nat): seq<T>
    decreases |s|
  {
    if |s| == 0 then []
    else (if base in dead then [] else [s[0]]) + SurvivorsFrom(s[1..], dead, base + 1)
  }

  /** The elements of `s` at positions not in `dead`, in their original order. */
  function Survivors<T>(s: seq<T>, dead: set<nat>): seq<T>
  {
    SurvivorsFrom(s, dead, 0)
  }

  lemma {:induction false} SurvivorsAppend<T>(a: seq<T>, b: seq<T>, dead: set<nat>, base: nat)
    ensures SurvivorsFrom(a + b, dead, base)
         == SurvivorsFrom(a, dead, base) + SurvivorsFrom(b, dead, base + |a|)
    decreases |a|
  {
    if |a| == 0 {
      assert a + b == b;
    } else {
      var head := if base in dead then [] else [a[0]];
      assert (a + b)[0] == a[0];
      assert (a + b)[1..] == a[1..] + b;
      assert SurvivorsFrom(a + b, dead, base) == head + SurvivorsFrom(a[1..] + b, dead, base + 1);
      assert SurvivorsFrom(a, dead, base) == head + SurvivorsFrom(a[1..], dead, base + 1);
      SurvivorsAppend(a[1..], b, dead, base + 1);
    }
  }

  /** With no dead position in range, every element survives. */
  lemma {:induction false} SurvivorsNoneDead<T>(s: seq<T>, dead: set<nat>, base: nat)
    requires forall i :: base <= i < base + |s| ==> i !in dead
    ensures SurvivorsFrom(s, dead, base) == s
    decreases |s|
  {
    if |s| != 0 {
      SurvivorsNoneDead(s[1..], dead, base + 1);
    }
  }

  /** Only the dead positions inside the range matter. */
  lemma {:induction false} SurvivorsAgree<T>(s: seq<T>, d1: set<nat>, d2: set<nat>, base: nat)
    requires forall i :: base <= i < base + |s| ==> (i in d1 <==> i in d2)
    ensures SurvivorsFrom(s, d1, base) == SurvivorsFrom(s, d2, base)
    decreases |s|
  {
    if |s| != 0 {
      SurvivorsAgree(s[1..], d1, d2, base + 1);
    }
  }

  /** Survivors of `s` when position `m` is dead and no later position is. */
  lemma LastDeadSplit<T>(s: seq<T>, dead: set<nat>, m: nat)
    requires m < |s| && m in dead
    requires forall i :: m < i < |s| ==> i !in dead
    ensures Survivors(s, dead) == SurvivorsFrom(s[..m], dead, 0) + s[m + 1..]
  {
    var tail := [s[m]] + s[m + 1..];
    assert s == s[..m] + tail;
    SurvivorsAppend(s[..m], tail, dead, 0);
    assert SurvivorsFrom([s[m]], dead, m) == [] by {
      assert [s[m]][1..] == [];
    }
    SurvivorsAppend([s[m]], s[m + 1..], dead, m);
    SurvivorsNoneDead(s[m + 1..], dead, m + 1);
  }

  /** Survivors of `s` with position `m` cut out, when no position from `m` on is dead. */
  lemma CutSplit<T>(s: seq<T>, dead: set<nat>, m: nat)
    requires m < |s|
    requires forall i :: m <= i < |s| - 1 ==> i !in dead
    ensures Survivors(RemoveAt(s, m), dead) == SurvivorsFrom(s[..m], dead, 0) + s[m + 1..]
  {
    assert RemoveAt(s, m) == s[..m] + s[m + 1..];
    SurvivorsAppend(s[..m], s[m + 1..], dead, 0);
    SurvivorsNoneDead(s[m + 1..], dead, m);
  }

  /**
   Removing the marked positions from the highest to the lowest leaves
   exactly the survivors: the unmarked elements, in their original order.
   */
  lemma {:induction false} RemoveMarkedIsSurvivors<T>(s: seq<T>, marks: seq<nat>, dead: set<nat>)
    requires StrictlyIncreasing(marks) && MarksIn(marks, s)
    requires forall i :: 0 <= i < |s| ==> (i in dead <==> i in marks)
    ensures RemoveMarked(s, marks) == Survivors(s, dead)
    decreases |marks|
  {
    if |marks| == 0 {
      SurvivorsNoneDead(s, dead, 0);
    } else {
      var m := marks[|marks| - 1];
      var rest := marks[..|marks| - 1];
      var dead' := dead - {m};
      forall i | 0 <= i < |s| - 1
        ensures i in dead' <==> i in rest
      {
        if i in marks && i != m {
          var k :| 0 <= k < |marks| && marks[k] == i;
          assert k < |marks| - 1 && rest[k] == i;
        }
      }
      assert forall k :: 0 <= k < |marks| ==> marks[k] <= m;
      assert forall i :: m < i < |s| ==> i !in marks;
      RemoveMarkedIsSurvivors(RemoveAt(s, m), rest, dead');
      CutSplit(s, dead', m);
      SurvivorsAgree(s[..m], dead', dead, 0);
      LastDeadSplit(s, dead, m);
    }
  }
}
