/** Already-parsed HGVS mutation descriptors, and the errors the mutation engine reports. */
module Hgvs {

  /** The `mutation_type` of a descriptor: `>`, `del`, `ins`, `dup`, `delins`, or any
      other name, which the engine rejects. */
  datatype MutationType =
    | Substitution
    | Deletion
    | Insertion
    | Duplication
    | DelIns
    | Other(name: string)

  /** One descriptor such as `NM_1:c.4A>T`: its transcript, its coordinate kind
      (`c` for coding DNA), its type, the 1-based coordinates `cdna_start.coord` and
      `cdna_end.coord`, and the reference and alternative alleles. */
  datatype Mutation = Mutation(
    transcript: string,
    kind: string,
    mutationType: MutationType,
    cdnaStart: int,
    cdnaEnd: int,
    refAllele: string,
    altAllele: string)

  /** The only coordinate kind the engine implements. */
  const CDna: string := "c"

  /** The exceptions the engine raises. */
  datatype Error =
    | SequenceMismatch        // the reference allele is not where the descriptor says
    | UnsupportedKind         // a descriptor whose kind is not `c`
    | UnexpectedMutationType  // a mutation type other than the five known ones
    | OverlapNotImplemented   // the remapper met two overlapping mutations
    | UnknownTranscript       // no transcript sequence under the descriptor's id
    | ParityViolation         // the list-length assertion of add_revmut failed

  datatype Result<T> = Ok(value: T) | Err(error: Error)

  datatype Option<T> = None | Some(value: T)

  /** The outcome of a step that returns nothing. */
  datatype Outcome = Pass | Fail(error: Error)

  /** The spans of two descriptors share at least one coordinate: neither lies
      wholly upstream of the other. */
  predicate Overlaps(h1: Mutation, h2: Mutation)
  {
    h1.cdnaStart <= h2.cdnaEnd && h2.cdnaStart <= h1.cdnaEnd
  }

  /** A descriptor whose span is not reversed. */
  predicate WellFormed(h: Mutation)
  {
    h.cdnaStart <= h.cdnaEnd
  }
}
