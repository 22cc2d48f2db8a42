/** The effect of one lane scan in closed form. A lane is a sequence of
    slots, index 0 the entry and the last index the exit; `hole` marks an
    empty slot. The scan visits the slots from the exit down to index 1 and
    moves the occupant behind each empty slot into it. Its net effect: with
    L the highest empty index, the slots 1 .. L take the old contents of
    0 .. L-1, slot 0 becomes empty, and the full block above L stays put. */
module LaneShift {
  import opened Wrappers

  /** The highest index of `s` holding `hole`, or -1 when none does. */
  function HighestHole<T(==)>(s: seq<T>, hole: T): (L: int)
    ensures -1 <= L < |s|
    ensures L >= 0 ==> s[L] == hole
    ensures forall k :: L < k < |s| ==> s[k] != hole
  {
    if |s| == 0 then -1
    else if s[|s| - 1] == hole then |s| - 1
    else HighestHole(s[..|s| - 1], hole)
  }

  /** Any index with the two defining properties is the highest hole. */
  lemma HighestHoleUnique<T>(s: seq<T>, hole: T, L: int)
    requires -1 <= L < |s|
    requires L >= 0 ==> s[L] == hole
    requires forall k :: L < k < |s| ==> s[k] != hole
    ensures HighestHole(s, hole) == L
  {
  }

  /** The lane after the scan, slot by slot. */
  function Shift<T(==)>(s: seq<T>, hole: T): (r: seq<T>)
    ensures |r| == |s|
  {
    var L := HighestHole(s, hole);
    seq(|s|, k requires 0 <= k < |s| => if k > L then s[k] else if k == 0 then hole else s[k - 1])
  }

  /** A lane is the part before an empty slot, that slot, and the rest. */
  lemma SplitAt<T>(s: seq<T>, L: nat)
    requires L < |s|
    ensures s == s[..L] + [s[L]] + s[L + 1..]
  {
    assert s == s[..L] + s[L..];
    assert s[L..] == [s[L]] + s[L + 1..];
  }

  /** The closed form as a rearrangement: a lane with no empty slot is left
      as it is; otherwise the highest empty slot is taken out and an empty
      slot is put in at the entry. */
  lemma ShiftClosedForm<T>(s: seq<T>, hole: T)
    ensures var L := HighestHole(s, hole);
      && (L < 0 ==> Shift(s, hole) == s)
      && (L >= 0 ==> s == s[..L] + [hole] + s[L + 1..])
      && (L >= 0 ==> Shift(s, hole) == [hole] + s[..L] + s[L + 1..])
  {
    var L := HighestHole(s, hole);
    var r := Shift(s, hole);
    if L >= 0 {
      SplitAt(s, L);
      var front := [hole] + s[..L];
      var back := s[L + 1..];
      assert |front| == L + 1;
      forall k | 0 <= k < |r|
        ensures r[k] == (front + back)[k]
      {
        if k <= L {
          assert (front + back)[k] == front[k];
          assert k > 0 ==> front[k] == s[..L][k - 1];
        } else {
          assert (front + back)[k] == back[k - L - 1];
        }
      }
      assert r == front + back;
    }
  }

  /** Where each occupant ends: every occupant below the highest empty slot
      advances exactly one slot towards the exit, every other one stays. */
  lemma ShiftMovesAtMostOne<T>(s: seq<T>, hole: T, k: nat)
    requires k < |s| && s[k] != hole
    ensures var L := HighestHole(s, hole);
      && (k < L ==> k + 1 < |s| && Shift(s, hole)[k + 1] == s[k])
      && (k > L ==> Shift(s, hole)[k] == s[k])
      && k != L
  {
  }

  /** A full lane, a lane of at most one slot, and the occupant of the exit
      slot are all left untouched by the scan. */
  lemma ShiftKeeps<T>(s: seq<T>, hole: T)
    ensures (forall k :: 0 <= k < |s| ==> s[k] != hole) ==> Shift(s, hole) == s
    ensures |s| <= 1 ==> Shift(s, hole) == s
    ensures |s| > 0 && s[|s| - 1] != hole ==> Shift(s, hole)[|s| - 1] == s[|s| - 1]
  {
    if |s| == 1 {
      assert Shift(s, hole)[0] == s[0];
    }
  }

  /** After the scan the entry slot is empty exactly when the lane had an
      empty slot somewhere. */
  lemma ShiftEntryEmpty<T>(s: seq<T>, hole: T)
    requires |s| > 0
    ensures Shift(s, hole)[0] == hole <==> exists k :: 0 <= k < |s| && s[k] == hole
  {
    var L := HighestHole(s, hole);
    if L >= 0 {
      assert s[L] == hole;
    }
  }

  /** Two four-slot lanes: a vehicle behind a gap advances one slot while the
      exit occupant stays; a run of two vehicles before an empty exit slot
      advances as a whole within one scan. */
  lemma ShiftExamples<T>(a: T, b: T, hole: T)
    requires a != hole && b != hole
    ensures Shift([a, hole, hole, b], hole) == [hole, a, hole, b]
    ensures Shift([hole, a, b, hole], hole) == [hole, hole, a, b]
  {
    assert HighestHole([a, hole, hole, b], hole) == 2 by {
      HighestHoleUnique([a, hole, hole, b], hole, 2);
    }
    assert HighestHole([hole, a, b, hole], hole) == 3;
  }

  /** The vehicle in one slot, as a sequence of zero or one vehicles. */
  function Occupant<T>(x: Option<T>): seq<T> {
    if x.Some? then [x.value] else []
  }

  /** The occupants of a lane, in slot order from the entry. */
  function Occupants<T>(s: seq<Option<T>>): (vs: seq<T>)
    ensures |vs| <= |s|
  {
    if s == [] then [] else Occupant(s[0]) + Occupants(s[1..])
  }

  lemma {:induction false} OccupantsConcat<T>(a: seq<Option<T>>, b: seq<Option<T>>)
    ensures Occupants(a + b) == Occupants(a) + Occupants(b)
  {
    if a == [] {
      assert a + b == b;
    } else {
      var ab := a + b;
      assert ab != [] && ab[0] == a[0];
      assert ab[1..] == a[1..] + b;
      calc {
        Occupants(ab);
        Occupant(a[0]) + Occupants(a[1..] + b);
        { OccupantsConcat(a[1..], b); }
        Occupant(a[0]) + (Occupants(a[1..]) + Occupants(b));
        (Occupant(a[0]) + Occupants(a[1..])) + Occupants(b);
      }
    }
  }

  /** The scan neither creates nor destroys vehicles, and keeps their order. */
  lemma ShiftConservesOccupants<T>(s: seq<Option<T>>)
    ensures Occupants(Shift(s, None)) == Occupants(s)
  {
    var L := HighestHole(s, None);
    ShiftClosedForm(s, None);
    if L >= 0 {
      OccupantsConcat([None] + s[..L], s[L + 1..]);
      OccupantsConcat([None], s[..L]);
      OccupantsConcat(s[..L] + [None], s[L + 1..]);
      OccupantsConcat(s[..L], [None]);
    }
  }

  /** Whether a tick consults the factory: the lane has a slot, and the entry
      slot is empty once the scan is done. */
  predicate Injects<T(==)>(s: seq<Option<T>>)
    ensures Injects(s) <==> exists k :: 0 <= k < |s| && s[k].None?
  {
    if |s| == 0 then false
    else ShiftEntryEmpty(s, None); Shift(s, None)[0].None?
  }

  /** A whole tick: the scan, then the factory's result `v` into slot 0 when
      that slot is empty. */
  function TickSpec<T(==)>(s: seq<Option<T>>, v: Option<T>): (r: seq<Option<T>>)
    ensures |r| == |s|
  {
    if Injects(s) then Shift(s, None)[0 := v] else Shift(s, None)
  }

  /** The factory is consulted exactly when the lane has an empty slot; a
      lane with no slot or with no empty slot is left as it is. */
  lemma InjectsIffRoom<T>(s: seq<Option<T>>, v: Option<T>)
    ensures Injects(s) <==> exists k :: 0 <= k < |s| && s[k].None?
    ensures !Injects(s) ==> TickSpec(s, v) == s
  {
    if |s| > 0 {
      ShiftEntryEmpty(s, None);
    }
    ShiftKeeps(s, None);
  }

  /** A tick only ever writes the factory's result into slot 0; it keeps the
      exit occupant in place; a one-slot lane never shifts. */
  lemma TickShape<T>(s: seq<Option<T>>, v: Option<T>)
    ensures forall k :: 1 <= k < |s| ==> TickSpec(s, v)[k] == Shift(s, None)[k]
    ensures |s| > 0 && s[|s| - 1].Some? ==> TickSpec(s, v)[|s| - 1] == s[|s| - 1]
    ensures |s| == 1 ==> TickSpec(s, v) == if s[0].None? then [v] else s
  {
    ShiftKeeps(s, None);
  }

  /** The occupants after a tick: the injected vehicle, if any, at the entry,
      followed by the occupants before the tick in their old order. */
  lemma TickOccupants<T>(s: seq<Option<T>>, v: Option<T>)
    ensures Occupants(TickSpec(s, v)) == (if Injects(s) && v.Some? then [v.value] else []) + Occupants(s)
  {
    ShiftConservesOccupants(s);
    if Injects(s) {
      OccupantsFillEntry(Shift(s, None), v);
    }
  }

  /** Filling an empty entry slot puts its vehicle ahead of all others. */
  lemma OccupantsFillEntry<T>(r: seq<Option<T>>, v: Option<T>)
    requires |r| > 0 && r[0].None?
    ensures Occupants(r[0 := v]) == Occupant(v) + Occupants(r)
  {
    assert r[0 := v][1..] == r[1..];
  }
}
