/** RevertantMutationsInfo: the wild-type and mutant proteins of one primary mutation,
    and, for each candidate revertant mutation added, its remapped descriptor, the
    protein it gives and that protein's distance from wild type. */
module Revertant {
  import opened Hgvs
  import opened SequenceEditor
  import opened CoordinateRemapper
  import opened EditDistance
  import opened TranscriptFilter
  import opened Composition

  /** A transcript as loaded from the FASTA file: its id and nucleotide sequence. */
  datatype TranscriptRecord = TranscriptRecord(id: string, sequence: string)

  /** The primary mutation `h` and then candidate `c` apply to `s` and raise the
      warning of a duplication found one base away. */
  predicate SequenceWarns(s: string, h: Mutation, c: Mutation)
  {
    ApplySequentially(s, h, c).Ok? && ApplySequentially(s, h, c).value.offByOneWarning
  }

  /** The prefix of `cs` one element longer than `cs[..i]`. */
  lemma PrefixSnoc<T>(cs: seq<T>, i: nat)
    requires i < |cs|
    ensures cs[..i + 1] == cs[..i] + [cs[i]]
    ensures cs[..i + 1][..i] == cs[..i] && cs[..i + 1][i] == cs[i]
    ensures forall c :: c in cs[..i] ==> c in cs
  {
  }

  /** Every candidate of `cs` applies after the primary mutation `h`. */
  function AllApply(s: string, h: Mutation, cs: seq<Mutation>): (a: bool)
    ensures a <==> forall c :: c in cs ==> ApplySequentially(s, h, c).Ok?
  {
    if |cs| == 0 then true
    else
      var init, last := cs[..|cs| - 1], cs[|cs| - 1];
      assert cs == init + [last];
      AllApply(s, h, init) && ApplySequentially(s, h, last).Ok?
  }

  /** Some candidate of `cs` raises the warning after the primary mutation `h`. */
  function AnyWarns(s: string, h: Mutation, cs: seq<Mutation>): (w: bool)
    ensures w <==> exists c :: c in cs && SequenceWarns(s, h, c)
  {
    if |cs| == 0 then false
    else
      var init, last := cs[..|cs| - 1], cs[|cs| - 1];
      assert cs == init + [last];
      AnyWarns(s, h, init) || SequenceWarns(s, h, last)
  }

  class RevertantMutationsInfo {
    const record: TranscriptRecord
    const mut: Mutation
    /** Translation of a nucleotide sequence up to its first stop codon. */
    const translate: string -> string
    const normalP: string
    const mutP: string
    const mutPDistance: nat
    var revmuts: seq<Mutation>
    var revmutsPosAdj: seq<Mutation>
    var revmutsP: seq<string>
    var revmutPDistances: seq<nat>

    /** The transcript with the primary mutation applied. */
    function MutantSequence(): string
      requires ApplyHgvs(record.sequence, mut).Ok?
    {
      ApplyHgvs(record.sequence, mut).value.sequence
    }

    /** The proteins and the distance computed by __init__ are those of the transcript
        and the primary mutation. */
    ghost predicate Initialised()
    {
      ApplyHgvs(record.sequence, mut).Ok? &&
      normalP == translate(record.sequence) &&
      mutP == translate(MutantSequence()) &&
      mutPDistance == Levenshtein(normalP, mutP)
    }

    /** Lists as add_revmut leaves them: entry `i` of each list is the candidate, its
        remapped descriptor, the protein it gives and that protein's distance from wild
        type. `revmuts` is extended before the candidate is remapped and applied, so
        after a failed candidate it, and possibly `revmutsPosAdj`, hold one entry more
        than the other two lists. */
    ghost predicate Recorded(revmuts: seq<Mutation>, posAdj: seq<Mutation>, proteins: seq<string>, distances: seq<nat>)
    {
      |proteins| == |distances| &&
      |proteins| <= |posAdj| <= |revmuts| <= |proteins| + 1 &&
      (forall i :: 0 <= i < |posAdj| ==> AlterCoordsSequential(mut, revmuts[i]) == Ok(posAdj[i])) &&
      (forall i :: 0 <= i < |proteins| ==>
         ApplySequentially(record.sequence, mut, revmuts[i]).Ok? &&
         proteins[i] == translate(ApplySequentially(record.sequence, mut, revmuts[i]).value.sequence)) &&
      (forall i :: 0 <= i < |proteins| ==> distances[i] == Levenshtein(normalP, proteins[i]))
    }

    /** The object invariant. */
    ghost predicate Valid()
      reads this
    {
      Initialised() && Recorded(revmuts, revmutsPosAdj, revmutsP, revmutPDistances)
    }

    /** Appending a candidate to even lists keeps them as add_revmut leaves them. */
    lemma RecordCandidate(revmuts: seq<Mutation>, posAdj: seq<Mutation>, proteins: seq<string>, distances: seq<nat>,
                          c: Mutation)
      requires Recorded(revmuts, posAdj, proteins, distances) && |revmuts| == |proteins|
      ensures Recorded(revmuts + [c], posAdj, proteins, distances)
    {
      assert forall i :: 0 <= i < |revmuts| ==> (revmuts + [c])[i] == revmuts[i];
    }

    /** Appending the remapped last candidate keeps the lists as add_revmut leaves them. */
    lemma RecordRemap(revmuts: seq<Mutation>, posAdj: seq<Mutation>, proteins: seq<string>, distances: seq<nat>)
      requires Recorded(revmuts, posAdj, proteins, distances)
      requires |posAdj| == |proteins| < |revmuts| && AlterCoordsSequential(mut, revmuts[|posAdj|]).Ok?
      ensures Recorded(revmuts, posAdj + [AlterCoordsSequential(mut, revmuts[|posAdj|]).value], proteins, distances)
    {
    }

    /** Appending the protein of the last candidate and its distance commits the lists. */
    lemma RecordProtein(revmuts: seq<Mutation>, posAdj: seq<Mutation>, proteins: seq<string>, distances: seq<nat>)
      requires Recorded(revmuts, posAdj, proteins, distances)
      requires |proteins| < |posAdj| && ApplySequentially(record.sequence, mut, revmuts[|proteins|]).Ok?
      ensures var protein := translate(ApplySequentially(record.sequence, mut, revmuts[|proteins|]).value.sequence);
        Recorded(revmuts, posAdj, proteins + [protein], distances + [Levenshtein(normalP, protein)])
    {
      var k := |proteins|;
      var protein := translate(ApplySequentially(record.sequence, mut, revmuts[k]).value.sequence);
      var proteins', distances' := proteins + [protein], distances + [Levenshtein(normalP, protein)];
      assert forall i :: 0 <= i < |proteins'| ==>
        ApplySequentially(record.sequence, mut, revmuts[i]).Ok? &&
        proteins'[i] == translate(ApplySequentially(record.sequence, mut, revmuts[i]).value.sequence)
      by {
        forall i | 0 <= i < |proteins'|
          ensures ApplySequentially(record.sequence, mut, revmuts[i]).Ok? &&
            proteins'[i] == translate(ApplySequentially(record.sequence, mut, revmuts[i]).value.sequence)
        {
          if i < k {
            assert proteins'[i] == proteins[i];
          }
        }
      }
      assert forall i :: 0 <= i < |proteins'| ==> distances'[i] == Levenshtein(normalP, proteins'[i]) by {
        forall i | 0 <= i < |proteins'| ensures distances'[i] == Levenshtein(normalP, proteins'[i]) {
          if i < k {
            assert proteins'[i] == proteins[i] && distances'[i] == distances[i];
          }
        }
      }
    }

    /** Every candidate added so far has been fully recorded: the four lists have
        the same length. */
    predicate Committed()
      reads this
    {
      |revmuts| == |revmutsP|
    }

    /** __init__, once the primary mutation is known to apply to the transcript. */
    constructor (record: TranscriptRecord, mut: Mutation, translate: string -> string)
      requires ApplyHgvs(record.sequence, mut).Ok?
      ensures Valid() && Committed()
      ensures this.record == record && this.mut == mut && this.translate == translate
      ensures revmuts == [] && revmutsPosAdj == [] && revmutsP == [] && revmutPDistances == []
    {
      var normal := translate(record.sequence);
      var mutant := translate(ApplyHgvs(record.sequence, mut).value.sequence);
      var distance := MinimumEditDistance(normal, mutant);
      this.record := record;
      this.mut := mut;
      this.translate := translate;
      normalP := normal;
      mutP := mutant;
      mutPDistance := distance;
      revmuts := [];
      revmutsPosAdj := [];
      revmutsP := [];
      revmutPDistances := [];
    }

    /** __init__: fails, as apply_hgvs does, when the primary mutation does not apply,
        and warns when the primary mutation is a duplication found one base away. */
    static method Create(record: TranscriptRecord, mut: Mutation, translate: string -> string)
      returns (r: Result<RevertantMutationsInfo>, warned: bool)
      ensures r.Ok? <==> ApplyHgvs(record.sequence, mut).Ok?
      ensures warned <==> ApplyHgvs(record.sequence, mut).Ok? && ApplyHgvs(record.sequence, mut).value.offByOneWarning
      ensures r.Err? ==> r.error == ApplyHgvs(record.sequence, mut).error
      ensures r.Ok? ==> fresh(r.value) && r.value.Valid() && r.value.Committed() && r.value.revmuts == []
      ensures r.Ok? ==> r.value.record == record && r.value.mut == mut && r.value.translate == translate
    {
      match ApplyHgvs(record.sequence, mut)
      case Err(e) =>
        r, warned := Err(e), false;
      case Ok(mutant) =>
        var info := new RevertantMutationsInfo(record, mut, translate);
        r, warned := Ok(info), mutant.offByOneWarning;
    }

    /** add_revmut: checks that the lists are even, appends the candidate, remaps it
        against the primary mutation, applies it to the mutant sequence, and records
        the protein and its distance from wild type. A failure of the remap or of the
        application stops it with the lists extended so far. Once the remap succeeds the
        primary mutation is applied again, so its warning is raised again, whether or not
        the candidate then applies. */
    method AddRevmut(revmut: Mutation) returns (outcome: Outcome, warned: bool)
      requires Valid()
      modifies this
      ensures Valid()
      ensures warned <==>
        old(Committed()) && AlterCoordsSequential(mut, revmut).Ok? &&
        (ApplyHgvs(record.sequence, mut).value.offByOneWarning ||
         (outcome.Pass? && SequenceWarns(record.sequence, mut, revmut)))
      ensures outcome.Pass? ==> (warned <==> SequenceWarns(record.sequence, mut, revmut))
      ensures outcome.Pass? <==> Committed()
      ensures outcome.Pass? <==> old(Committed()) && ApplySequentially(record.sequence, mut, revmut).Ok?
      ensures outcome ==
        if !old(Committed()) then Fail(ParityViolation)
        else if ApplySequentially(record.sequence, mut, revmut).Err? then
          Fail(ApplySequentially(record.sequence, mut, revmut).error)
        else Pass
      ensures revmuts == old(revmuts) + (if old(Committed()) then [revmut] else [])
      ensures revmutsPosAdj == old(revmutsPosAdj) +
        (if old(Committed()) && AlterCoordsSequential(mut, revmut).Ok? then [AlterCoordsSequential(mut, revmut).value] else [])
      ensures outcome.Fail? ==> revmutsP == old(revmutsP) && revmutPDistances == old(revmutPDistances)
      ensures outcome.Pass? ==>
        var protein := translate(ApplySequentially(record.sequence, mut, revmut).value.sequence);
        revmutsP == old(revmutsP) + [protein] &&
        revmutPDistances == old(revmutPDistances) + [Levenshtein(normalP, protein)]
    {
      if |revmuts| != |revmutsP| {
        return Fail(ParityViolation), false;
      }
      RecordCandidate(revmuts, revmutsPosAdj, revmutsP, revmutPDistances, revmut);
      revmuts := revmuts + [revmut];
      var adj := AlterCoordsSequential(mut, revmut);
      if adj.Err? {
        return Fail(adj.error), false;
      }
      RecordRemap(revmuts, revmutsPosAdj, revmutsP, revmutPDistances);
      revmutsPosAdj := revmutsPosAdj + [adj.value];
      var mutant := ApplyHgvs(record.sequence, mut).value;
      var edited := ApplyHgvs(mutant.sequence, adj.value);
      SequentialWarnings(record.sequence, mut, revmut);
      if edited.Err? {
        return Fail(edited.error), mutant.offByOneWarning;
      }
      warned := mutant.offByOneWarning || edited.value.offByOneWarning;
      RecordProtein(revmuts, revmutsPosAdj, revmutsP, revmutPDistances);
      var protein := translate(edited.value.sequence);
      revmutsP := revmutsP + [protein];
      var distance := MinimumEditDistance(normalP, protein);
      revmutPDistances := revmutPDistances + [distance];
      outcome := Pass;
    }

    /** The loop of the driver over the candidates of one transcript: add_revmut for
        each in turn, up to the first failure. A warning is raised when some candidate
        added with success warns, or when the failing candidate's remap succeeds and the
        primary mutation warns. */
    method AddRevmuts(candidates: seq<Mutation>) returns (outcome: Outcome, warned: bool)
      requires Valid() && Committed() && revmuts == []
      modifies this
      ensures Valid()
      ensures outcome.Pass? <==> AllApply(record.sequence, mut, candidates)
      ensures outcome.Pass? ==> Committed() && revmuts == candidates
      ensures outcome.Pass? ==> warned == AnyWarns(record.sequence, mut, candidates)
      ensures outcome.Fail? ==>
        var k := |revmuts| - 1;
        0 <= k < |candidates| && revmuts == candidates[..k + 1] &&
        AllApply(record.sequence, mut, candidates[..k]) &&
        ApplySequentially(record.sequence, mut, candidates[k]).Err? &&
        (warned <==>
           AnyWarns(record.sequence, mut, candidates[..k]) ||
           (AlterCoordsSequential(mut, candidates[k]).Ok? && ApplyHgvs(record.sequence, mut).value.offByOneWarning))
    {
      warned := false;
      for i := 0 to |candidates|
        invariant Valid() && Committed()
        invariant revmuts == candidates[..i]
        invariant AllApply(record.sequence, mut, candidates[..i])
        invariant warned == AnyWarns(record.sequence, mut, candidates[..i])
      {
        var step;
        step, warned := AddCandidate(candidates, i, warned);
        if step.Fail? {
          return step, warned;
        }
      }
      assert candidates[..|candidates|] == candidates;
      outcome := Pass;
    }

    /** One turn of the loop of AddRevmuts: add_revmut on `candidates[i]`, once the
        candidates before it have all been added. */
    method AddCandidate(candidates: seq<Mutation>, i: nat, warnedBefore: bool) returns (step: Outcome, warned: bool)
      requires i < |candidates| && Valid() && Committed() && revmuts == candidates[..i]
      requires AllApply(record.sequence, mut, candidates[..i])
      requires warnedBefore == AnyWarns(record.sequence, mut, candidates[..i])
      modifies this
      ensures Valid() && revmuts == candidates[..i + 1]
      ensures step.Pass? <==> ApplySequentially(record.sequence, mut, candidates[i]).Ok?
      ensures step.Pass? ==>
        Committed() && AllApply(record.sequence, mut, candidates[..i + 1]) &&
        warned == AnyWarns(record.sequence, mut, candidates[..i + 1])
      ensures step.Fail? ==>
        !AllApply(record.sequence, mut, candidates) &&
        (warned <==>
           AnyWarns(record.sequence, mut, candidates[..i]) ||
           (AlterCoordsSequential(mut, candidates[i]).Ok? && ApplyHgvs(record.sequence, mut).value.offByOneWarning))
    {
      ghost var before := revmuts;
      var stepWarned;
      step, stepWarned := AddRevmut(candidates[i]);
      assert revmuts == before + [candidates[i]];
      PrefixSnoc(candidates, i);
      if step.Fail? {
        assert candidates[i] in candidates;
      }
      warned := warnedBefore || stepWarned;
    }

    /** __len__: the number of candidates added, which is the number of recorded
        proteins and distances as long as no candidate has failed. */
    function Len(): (n: nat)
      reads this
      requires Valid()
      ensures n == |revmuts|
      ensures Committed() ==> n == |revmutsPosAdj| && n == |revmutsP| && n == |revmutPDistances|
      ensures !Committed() ==> n == |revmutsP| + 1
    {
      |revmuts|
    }
  }

  /** The work print_revertant_mutations_info does for one primary mutation, without the
      report writing: look up its transcript, build the accumulator, and add every
      candidate of that transcript (version suffix ignored) in input order. The first
      exception ends the run, so any failure is returned. `warned` tells whether the
      off-by-one warning of a duplication was written; a candidate after the failing one
      is never applied, so it raises none. */
  method AnalyzeMutation(transcripts: map<string, TranscriptRecord>, m: Mutation, revmuts: seq<Mutation>,
                         translate: string -> string)
    returns (r: Result<RevertantMutationsInfo>, warned: bool)
    ensures m.transcript !in transcripts ==> r == Err(UnknownTranscript) && !warned
    ensures r.Ok? <==>
      m.transcript in transcripts && ApplyHgvs(transcripts[m.transcript].sequence, m).Ok? &&
      forall c :: c in CandidatesFor(m.transcript, revmuts) ==> ApplySequentially(transcripts[m.transcript].sequence, m, c).Ok?
    ensures r.Ok? ==>
      fresh(r.value) && r.value.Valid() && r.value.Committed() &&
      r.value.record == transcripts[m.transcript] && r.value.mut == m && r.value.translate == translate &&
      r.value.revmuts == CandidatesFor(m.transcript, revmuts)
    ensures m.transcript in transcripts ==>
      var s := transcripts[m.transcript].sequence;
      var primaryWarns := ApplyHgvs(s, m).Ok? && ApplyHgvs(s, m).value.offByOneWarning;
      var candidateWarns := exists c :: c in CandidatesFor(m.transcript, revmuts) && SequenceWarns(s, m, c);
      (primaryWarns ==> warned) &&
      (warned ==> primaryWarns || candidateWarns) &&
      (r.Ok? ==> (warned <==> primaryWarns || candidateWarns))
  {
    if m.transcript !in transcripts {
      return Err(UnknownTranscript), false;
    }
    var record := transcripts[m.transcript];
    var created, initWarned := RevertantMutationsInfo.Create(record, m, translate);
    if created.Err? {
      return Err(created.error), initWarned;
    }
    var info := created.value;
    var candidates := CandidatesFor(m.transcript, revmuts);
    var outcome, addWarned := info.AddRevmuts(candidates);
    warned := initWarned || addWarned;
    if outcome.Fail? {
      PrefixSnoc(candidates, |info.revmuts| - 1);
      return Err(outcome.error), warned;
    }
    return Ok(info), warned;
  }

  /** A transcript `ATGAAATAG` (protein MK): the primary mutation c.4A>T gives
      `ATGTAATAG` (protein M); the candidate c.5A>G, after a substitution, keeps its
      coordinates and gives `ATGTGATAG`; both proteins are at distance 1 from MK. */
  lemma WorkedExample()
    ensures var h1 := Mutation("NM_1", CDna, Substitution, 4, 4, "A", "T");
      var h2 := Mutation("NM_1", CDna, Substitution, 5, 5, "A", "G");
      ApplyHgvs("ATGAAATAG", h1) == Ok(Edited("ATGTAATAG", false)) &&
      AlterCoordsSequential(h1, h2) == Ok(h2) &&
      ApplyHgvs("ATGTAATAG", h2) == Ok(Edited("ATGTGATAG", false)) &&
      Levenshtein("MK", "M") == 1 &&
      TranscriptMatches("NM_1", "NM_1")
  {
    assert "ATGAAATAG"[3..4] == "A" && "ATGTAATAG"[4..5] == "A";
    assert "ATGAAATAG"[..3] + "T" + "ATGAAATAG"[4..] == "ATGTAATAG";
    assert "ATGTAATAG"[..4] + "G" + "ATGTAATAG"[5..] == "ATGTGATAG";
    assert Levenshtein("M", "M") == 0 by {
      ZeroIffIdentical("M", "M");
    }
    assert "MK"[..1] == "M" && "M"[..0] == "";
  }
}
