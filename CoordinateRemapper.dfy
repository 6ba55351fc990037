/** alter_coords_hgvs_sequential: the coordinates of a second descriptor once a first
    one has been applied. */
module CoordinateRemapper {
  import opened Hgvs

  /** The change in transcript length that the remapper assumes an applied descriptor
      causes. A substitution is never shifted over, so it counts as no change. */
  function Delta(h: Mutation): int
  {
    match h.mutationType
    case Deletion => -|h.refAllele|
    case Insertion => |h.altAllele|
    case Duplication => |h.altAllele| - |h.refAllele|
    case DelIns => |h.altAllele| - |h.refAllele|
    case _ => 0
  }

  /** A copy of `h` moved by `d` bases. */
  function Shift(h: Mutation, d: int): (r: Mutation)
    ensures r.(cdnaStart := h.cdnaStart, cdnaEnd := h.cdnaEnd) == h
    ensures r.cdnaStart - h.cdnaStart == d && r.cdnaEnd - h.cdnaEnd == d
  {
    h.(cdnaStart := h.cdnaStart + d, cdnaEnd := h.cdnaEnd + d)
  }

  /** alter_coords_hgvs_sequential(h1, h2), for an `h1` that has already been applied.
      After a substitution `h2` is kept as it is, wherever it lies; after any other
      known type it is kept when it lies wholly upstream of `h1`, shifted by the length
      change of `h1` when it lies wholly downstream, and refused when the spans overlap. */
  function AlterCoordsSequential(h1: Mutation, h2: Mutation): (r: Result<Mutation>)
    ensures r.Ok? <==>
      h1.kind == CDna && h2.kind == CDna && !h1.mutationType.Other? &&
      (h1.mutationType.Substitution? || !Overlaps(h1, h2))
    ensures h1.kind != CDna || h2.kind != CDna ==> r == Err(UnsupportedKind)
    ensures h1.kind == CDna && h2.kind == CDna && h1.mutationType.Other? ==> r == Err(UnexpectedMutationType)
    ensures h1.kind == CDna && h2.kind == CDna && !h1.mutationType.Other? && !h1.mutationType.Substitution? &&
              Overlaps(h1, h2) ==>
              r == Err(OverlapNotImplemented)
    ensures r.Ok? ==> r.value == h2 || r.value == Shift(h2, Delta(h1))
    ensures r.Ok? ==> r.value.cdnaEnd - r.value.cdnaStart == h2.cdnaEnd - h2.cdnaStart
  {
    if h1.kind == CDna && h2.kind == CDna then
      match h1.mutationType
      case Substitution => Ok(h2)
      case Other(_) => Err(UnexpectedMutationType)
      case _ =>
        if h1.cdnaStart > h2.cdnaEnd then Ok(h2)
        else if h1.cdnaEnd < h2.cdnaStart then Ok(Shift(h2, Delta(h1)))
        else Err(OverlapNotImplemented)
    else Err(UnsupportedKind)
  }

  /** A descriptor wholly upstream of the applied one keeps its coordinates. */
  lemma UpstreamUnchanged(h1: Mutation, h2: Mutation)
    requires h1.kind == CDna && h2.kind == CDna && !h1.mutationType.Other?
    requires h1.cdnaStart > h2.cdnaEnd
    ensures AlterCoordsSequential(h1, h2) == Ok(h2)
  {
  }

  /** A descriptor wholly downstream of the applied one moves by `Delta(h1)` and keeps
      everything else. That `Delta(h1)` is the change in length the editor makes when it
      applies `h1` is `Composition.ExactWindow`. */
  lemma DownstreamShifted(h1: Mutation, h2: Mutation)
    requires h1.kind == CDna && h2.kind == CDna && !h1.mutationType.Other?
    requires WellFormed(h1) && WellFormed(h2) && h1.cdnaEnd < h2.cdnaStart
    ensures var r := AlterCoordsSequential(h1, h2);
      r.Ok? && r.value.cdnaStart == h2.cdnaStart + Delta(h1) && r.value.cdnaEnd == h2.cdnaEnd + Delta(h1) &&
      r.value.(cdnaStart := h2.cdnaStart, cdnaEnd := h2.cdnaEnd) == h2
  {
  }
}
