/** Applying two non-overlapping descriptors one after the other, the second remapped
    by alter_coords_hgvs_sequential: the order does not matter, and the coordinate
    shift the remapper uses is the length change the editor makes. */
module Composition {
  import opened Hgvs
  import opened SequenceEditor
  import opened CoordinateRemapper

  /** The first 0-based position a descriptor edits. */
  function EditLo(h: Mutation): int
  {
    if h.mutationType.Insertion? then h.cdnaStart else h.cdnaStart - 1
  }

  /** The 0-based position just past the bases a descriptor replaces. */
  function EditHi(h: Mutation): int
  {
    if h.mutationType.Substitution? || h.mutationType.Insertion? then h.cdnaStart else h.cdnaEnd
  }

  /** What a descriptor puts in place of the bases it replaces. */
  function EditText(h: Mutation): string
  {
    if h.mutationType.Deletion? then [] else h.altAllele
  }

  /** The bases a descriptor expects in its window: none at an insertion point, its
      reference allele otherwise. */
  function EditRef(h: Mutation): string
  {
    if h.mutationType.Insertion? then [] else h.refAllele
  }

  /** `h` applies to `s` at exactly the position it states: its stated window reads what
      it expects there (no off-by-one fallback), its type is a known one, and a
      substitution puts a single base. For an insertion this says that the insertion
      point lies inside `s`. */
  predicate AppliesExactly(s: string, h: Mutation)
  {
    h.kind == CDna && !h.mutationType.Other? &&
    (h.mutationType.Substitution? ==> |h.altAllele| == 1) &&
    WindowReads(s, EditLo(h), EditHi(h), EditRef(h))
  }

  /** The window of a descriptor that applies exactly lies inside `s`, and the
      remapper's shift is the length of its text less the width of its window. */
  lemma ExactWindow(s: string, h: Mutation)
    requires AppliesExactly(s, h)
    ensures 0 <= EditLo(h) <= EditHi(h) <= |s|
    ensures Delta(h) == |EditText(h)| - (EditHi(h) - EditLo(h))
  {
  }

  /** A descriptor that applies exactly replaces its own window by its own text, without
      a warning. */
  lemma ExactApplication(s: string, h: Mutation)
    requires AppliesExactly(s, h)
    ensures 0 <= EditLo(h) <= EditHi(h) <= |s|
    ensures ApplyHgvs(s, h) == Ok(Edited(Splice(s, EditLo(h), EditHi(h), EditText(h)), false))
  {
  }

  /** Of two descriptors that apply exactly, one wholly upstream of the other, the
      upstream window ends where the downstream one starts or before. */
  lemma OrderedWindows(s: string, first: Mutation, second: Mutation)
    requires AppliesExactly(s, first) && AppliesExactly(s, second)
    requires WellFormed(first) && WellFormed(second) && first.cdnaEnd < second.cdnaStart
    ensures 0 <= EditLo(first) <= EditHi(first) <= EditLo(second) <= EditHi(second) <= |s|
  {
    ExactWindow(s, first);
    ExactWindow(s, second);
  }

  /** Splicing the upstream window first and then the downstream one, moved by the
      length change: the bases between and around the two windows are kept. */
  lemma UpstreamSpliceFirst(s: string, lo1: int, hi1: int, a1: string, lo2: int, hi2: int, a2: string)
    requires 0 <= lo1 <= hi1 <= lo2 <= hi2 <= |s|
    ensures var d, t1 := |a1| - (hi1 - lo1), Splice(s, lo1, hi1, a1);
      0 <= lo2 + d <= hi2 + d <= |t1| && t1[lo2 + d..hi2 + d] == s[lo2..hi2] &&
      Splice(t1, lo2 + d, hi2 + d, a2) == s[..lo1] + a1 + s[hi1..lo2] + a2 + s[hi2..]
  {
    var d := |a1| - (hi1 - lo1);
    var left, win2, tail := s[..lo1] + a1 + s[hi1..lo2], s[lo2..hi2], s[hi2..];
    assert s[hi1..] == s[hi1..lo2] + win2 + tail;
    var t1 := Splice(s, lo1, hi1, a1);
    assert t1 == left + win2 + tail;
    assert |left| == lo2 + d;
    assert t1[..lo2 + d] == left;
    assert t1[lo2 + d..hi2 + d] == win2;
    assert t1[hi2 + d..] == tail;
  }

  /** Splicing the downstream window first and then the upstream one, unmoved. */
  lemma DownstreamSpliceFirst(s: string, lo1: int, hi1: int, a1: string, lo2: int, hi2: int, a2: string)
    requires 0 <= lo1 <= hi1 <= lo2 <= hi2 <= |s|
    ensures var t2 := Splice(s, lo2, hi2, a2);
      hi1 <= |t2| && t2[lo1..hi1] == s[lo1..hi1] &&
      Splice(t2, lo1, hi1, a1) == s[..lo1] + a1 + s[hi1..lo2] + a2 + s[hi2..]
  {
    var head, win1, right := s[..lo1], s[lo1..hi1], s[hi1..lo2] + a2 + s[hi2..];
    assert s[..lo2] == head + win1 + s[hi1..lo2];
    var t2 := Splice(s, lo2, hi2, a2);
    assert t2 == head + win1 + right;
    assert t2[..lo1] == head;
    assert t2[lo1..hi1] == win1;
    assert t2[hi1..] == right;
  }

  /** Two splices of disjoint windows, the later one moved by the length change of the
      earlier one, can be made in either order. */
  lemma SpliceCommute(s: string, lo1: int, hi1: int, a1: string, lo2: int, hi2: int, a2: string, d: int)
    requires 0 <= lo1 <= hi1 <= lo2 <= hi2 <= |s| && d == |a1| - (hi1 - lo1)
    ensures var t1, t2 := Splice(s, lo1, hi1, a1), Splice(s, lo2, hi2, a2);
      0 <= lo2 + d <= hi2 + d <= |t1| && t1[lo2 + d..hi2 + d] == s[lo2..hi2] &&
      hi1 <= |t2| && t2[lo1..hi1] == s[lo1..hi1] &&
      Splice(t1, lo2 + d, hi2 + d, a2) == Splice(t2, lo1, hi1, a1)
  {
    UpstreamSpliceFirst(s, lo1, hi1, a1, lo2, hi2, a2);
    DownstreamSpliceFirst(s, lo1, hi1, a1, lo2, hi2, a2);
  }

  /** `first` applied to `s`, then `second` as the remapper moves it past `first`: what
      add_revmut does with the primary mutation and one candidate. The remapper's
      failure comes first, as it is called before the sequences are edited. The warning
      is raised when either edit is a duplication found one base away. */
  function ApplySequentially(s: string, first: Mutation, second: Mutation): (r: Result<Edited>)
    ensures AlterCoordsSequential(first, second).Err? ==> r == Err(AlterCoordsSequential(first, second).error)
    ensures AlterCoordsSequential(first, second).Ok? && ApplyHgvs(s, first).Err? ==> r == Err(ApplyHgvs(s, first).error)
    ensures r.Ok? ==> AlterCoordsSequential(first, second).Ok? && ApplyHgvs(s, first).Ok?
    ensures r.Ok? && ApplyHgvs(s, first).value.offByOneWarning ==> r.value.offByOneWarning
    ensures r.Ok? && r.value.offByOneWarning ==> first.mutationType.Duplication? || second.mutationType.Duplication?
  {
    match AlterCoordsSequential(first, second)
    case Err(e) => Err(e)
    case Ok(moved) =>
      match ApplyHgvs(s, first)
      case Err(e) => Err(e)
      case Ok(t) =>
        match ApplyHgvs(t.sequence, moved)
        case Err(e) => Err(e)
        case Ok(u) => Ok(Edited(u.sequence, t.offByOneWarning || u.offByOneWarning))
  }

  /** The two edits of `ApplySequentially`: it succeeds exactly when the second one,
      moved, applies to the result of the first, gives that sequence, and warns when
      either of the two edits warns. */
  lemma SequentialWarnings(s: string, first: Mutation, second: Mutation)
    requires AlterCoordsSequential(first, second).Ok? && ApplyHgvs(s, first).Ok?
    ensures var t, moved := ApplyHgvs(s, first).value, AlterCoordsSequential(first, second).value;
      var r := ApplySequentially(s, first, second);
      (r.Ok? <==> ApplyHgvs(t.sequence, moved).Ok?) &&
      (r.Err? ==> r.error == ApplyHgvs(t.sequence, moved).error) &&
      (r.Ok? ==> r.value.sequence == ApplyHgvs(t.sequence, moved).value.sequence &&
                 (r.value.offByOneWarning <==> t.offByOneWarning || ApplyHgvs(t.sequence, moved).value.offByOneWarning))
  {
  }

  /** On `AGC` the duplication c.2dupC is found one base 3' and warns; a substitution
      c.1A>T upstream of it then applies without a warning of its own, and the pair
      still warns. */
  lemma ShiftedPrimaryWarning()
    ensures var dup := Mutation("NM_1", CDna, Duplication, 2, 2, "C", "CC");
      var sub := Mutation("NM_1", CDna, Substitution, 1, 1, "A", "T");
      ApplyHgvs("AGC", dup) == Ok(Edited("AGCC", true)) &&
      ApplyHgvs("AGCC", sub) == Ok(Edited("TGCC", false)) &&
      ApplySequentially("AGC", dup, sub) == Ok(Edited("TGCC", true))
  {
    assert "AGC"[1..2] == "G" && "AGC"[2..3] == "C";
    assert "AGC"[..2] + "CC" + "AGC"[3..] == "AGCC";
    assert "AGCC"[0..1] == "A";
    assert "AGCC"[..0] + "T" + "AGCC"[1..] == "TGCC";
  }

  /** A descriptor that applies exactly to `s` also applies exactly, moved by `d`, to a
      sequence `t` that holds the same bases `d` positions further on. */
  lemma MovedAppliesExactly(s: string, t: string, h: Mutation, d: int)
    requires AppliesExactly(s, h)
    requires 0 <= EditLo(h) + d <= EditHi(h) + d <= |t|
    requires t[EditLo(h) + d..EditHi(h) + d] == s[EditLo(h)..EditHi(h)]
    ensures AppliesExactly(t, Shift(h, d))
    ensures EditLo(Shift(h, d)) == EditLo(h) + d && EditHi(Shift(h, d)) == EditHi(h) + d
    ensures EditText(Shift(h, d)) == EditText(h) && Delta(Shift(h, d)) == Delta(h)
  {
    ExactApplication(s, h);
  }

  /** When `first` applies exactly and `second`, remapped to `moved`, applies exactly to
      the result, the two edits are the two splices. */
  lemma SequentialSplices(s: string, first: Mutation, second: Mutation, moved: Mutation)
    requires AppliesExactly(s, first) && AlterCoordsSequential(first, second) == Ok(moved)
    requires AppliesExactly(Splice(s, EditLo(first), EditHi(first), EditText(first)), moved)
    ensures var t := Splice(s, EditLo(first), EditHi(first), EditText(first));
      0 <= EditLo(moved) <= EditHi(moved) <= |t| &&
      ApplySequentially(s, first, second) == Ok(Edited(Splice(t, EditLo(moved), EditHi(moved), EditText(moved)), false))
  {
    ExactApplication(s, first);
    ExactApplication(Splice(s, EditLo(first), EditHi(first), EditText(first)), moved);
  }

  /** After an upstream descriptor the remapper moves a downstream one by the upstream
      one's shift, and after a downstream descriptor it keeps an upstream one. */
  lemma OrderedRemaps(first: Mutation, second: Mutation)
    requires first.kind == CDna && second.kind == CDna && !first.mutationType.Other? && !second.mutationType.Other?
    requires WellFormed(first) && WellFormed(second) && first.cdnaEnd < second.cdnaStart
    ensures AlterCoordsSequential(first, second) == Ok(Shift(second, Delta(first)))
    ensures AlterCoordsSequential(second, first) == Ok(first)
  {
    if first.mutationType.Substitution? {
      assert Shift(second, Delta(first)) == second;
    }
  }

  /** The splices behind the case `first` wholly upstream of `second`: `second`, moved
      by the shift of `first`, still applies exactly after `first`, `first` still applies
      exactly after `second`, and the two orders give the same sequence. */
  lemma OrderedSplicesAgree(s: string, first: Mutation, second: Mutation)
    requires AppliesExactly(s, first) && AppliesExactly(s, second)
    requires WellFormed(first) && WellFormed(second) && first.cdnaEnd < second.cdnaStart
    ensures AppliesExactly(Splice(s, EditLo(first), EditHi(first), EditText(first)), Shift(second, Delta(first)))
    ensures AppliesExactly(Splice(s, EditLo(second), EditHi(second), EditText(second)), first)
    ensures var t1, moved := Splice(s, EditLo(first), EditHi(first), EditText(first)), Shift(second, Delta(first));
      Splice(t1, EditLo(moved), EditHi(moved), EditText(moved)) ==
      Splice(Splice(s, EditLo(second), EditHi(second), EditText(second)), EditLo(first), EditHi(first), EditText(first))
    ensures var t1, moved := Splice(s, EditLo(first), EditHi(first), EditText(first)), Shift(second, Delta(first));
      |Splice(t1, EditLo(moved), EditHi(moved), EditText(moved))| == |s| + Delta(first) + Delta(second)
  {
    var d := Delta(first);
    var lo1, hi1, a1 := EditLo(first), EditHi(first), EditText(first);
    var lo2, hi2, a2 := EditLo(second), EditHi(second), EditText(second);
    OrderedWindows(s, first, second);
    ExactWindow(s, first);
    ExactWindow(s, second);
    SpliceCommute(s, lo1, hi1, a1, lo2, hi2, a2, d);
    var t1, t2 := Splice(s, lo1, hi1, a1), Splice(s, lo2, hi2, a2);
    MovedAppliesExactly(s, t1, second, d);
    MovedAppliesExactly(s, t2, first, 0);
    assert Shift(first, 0) == first;
    var moved := Shift(second, d);
    assert EditLo(moved) == lo2 + d && EditHi(moved) == hi2 + d && EditText(moved) == a2;
    var r := Splice(t1, lo2 + d, hi2 + d, a2);
    assert r == Splice(t2, lo1, hi1, a1);
    assert |t1| == |s| + d;
    assert |r| == |s| + d + Delta(second);
  }

  /** The case `first` wholly upstream of `second`: the remapper moves `second` by the
      length change of `first` and keeps `first`, and either way round the second edit
      lands at exactly its place and gives the same sequence. */
  lemma OrderedPairCommutes(s: string, first: Mutation, second: Mutation)
    requires AppliesExactly(s, first) && AppliesExactly(s, second)
    requires WellFormed(first) && WellFormed(second) && first.cdnaEnd < second.cdnaStart
    ensures AlterCoordsSequential(first, second) == Ok(Shift(second, Delta(first)))
    ensures AlterCoordsSequential(second, first) == Ok(first)
    ensures ApplySequentially(s, first, second).Ok?
    ensures ApplySequentially(s, first, second) == ApplySequentially(s, second, first)
    ensures !ApplySequentially(s, first, second).value.offByOneWarning
    ensures |ApplySequentially(s, first, second).value.sequence| == |s| + Delta(first) + Delta(second)
  {
    var moved := Shift(second, Delta(first));
    OrderedRemaps(first, second);
    OrderedSplicesAgree(s, first, second);
    SequentialSplices(s, first, second, moved);
    SequentialSplices(s, second, first, first);
  }

  /** Applying `h1` and then `h2` as remapped against `h1` gives the same sequence as
      applying `h2` and then `h1` as remapped against `h2`, for any two non-overlapping
      descriptors that apply at their stated positions; the result is `s` changed in
      length by the two shifts the remapper assumes, and no warning is raised. */
  lemma SequentialApplicationCommutes(s: string, h1: Mutation, h2: Mutation)
    requires AppliesExactly(s, h1) && AppliesExactly(s, h2)
    requires WellFormed(h1) && WellFormed(h2) && !Overlaps(h1, h2)
    ensures ApplySequentially(s, h1, h2).Ok?
    ensures ApplySequentially(s, h1, h2) == ApplySequentially(s, h2, h1)
    ensures !ApplySequentially(s, h1, h2).value.offByOneWarning
    ensures |ApplySequentially(s, h1, h2).value.sequence| == |s| + Delta(h1) + Delta(h2)
  {
    if h1.cdnaEnd < h2.cdnaStart {
      OrderedPairCommutes(s, h1, h2);
    } else {
      OrderedPairCommutes(s, h2, h1);
    }
  }
}
