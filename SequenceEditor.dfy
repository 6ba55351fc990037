/** apply_hgvs: applying one cDNA descriptor to a nucleotide sequence. */
module SequenceEditor {
  import opened Hgvs

  /** The edited sequence, with the warning that a duplication was found one base
      away from its stated position and applied there anyway. */
  datatype Edited = Edited(sequence: string, offByOneWarning: bool)

  /** The window `s[lo..hi]` lies inside `s` and reads `ref`. */
  predicate WindowReads(s: string, lo: int, hi: int, ref: string)
  {
    0 <= lo <= hi <= |s| && s[lo..hi] == ref
  }

  /** `s` with the window `s[lo..hi]` replaced by `ins`. */
  function Splice(s: string, lo: int, hi: int, ins: string): (r: string)
    requires 0 <= lo <= hi <= |s|
    ensures |r| == |s| - (hi - lo) + |ins|
  {
    s[..lo] + ins + s[hi..]
  }

  /** `t` is `s` with the bases `s[w..w + |ref|]`, which read `ref`, replaced by `alt`:
      what comes before `w` and after the window is kept. */
  predicate ReplacedAt(s: string, t: string, w: int, ref: string, alt: string)
  {
    0 <= w && w + |ref| <= |s| && s[w..w + |ref|] == ref &&
    |t| == |s| - |ref| + |alt| &&
    t[..w] == s[..w] && t[w..w + |alt|] == alt && t[w + |alt|..] == s[w + |ref|..]
  }

  /** Splicing `alt` over a window that reads `ref` replaces `ref` by `alt` there. */
  lemma SpliceReplaces(s: string, lo: int, hi: int, ref: string, alt: string)
    requires WindowReads(s, lo, hi, ref)
    ensures ReplacedAt(s, Splice(s, lo, hi, alt), lo, ref, alt)
  {
    var t := Splice(s, lo, hi, alt);
    assert t[..lo] == s[..lo];
    assert t[lo..lo + |alt|] == alt;
    assert t[lo + |alt|..] == s[hi..];
  }

  /** A window `[lo, hi)` of the sequence, and whether it is shifted from the one the
      descriptor states. */
  datatype Window = Window(lo: int, hi: int, shifted: bool)

  /** The off-by-one policy of deletion and duplication: the stated window `[lo, hi)`
      if it reads `ref`, else the window one base 3' of it, else the one one base 5'. */
  function DriftedWindow(s: string, lo: int, hi: int, ref: string): (w: Option<Window>)
    ensures w.Some? <==>
      WindowReads(s, lo, hi, ref) || WindowReads(s, lo + 1, hi + 1, ref) || WindowReads(s, lo - 1, hi - 1, ref)
    ensures w.Some? ==> WindowReads(s, w.value.lo, w.value.hi, ref) && w.value.hi - w.value.lo == hi - lo
    ensures w.Some? ==> w.value.lo in {lo, lo + 1, lo - 1} && w.value.shifted == (w.value.lo != lo)
    ensures w.Some? && w.value.lo != lo ==> !WindowReads(s, lo, hi, ref)
    ensures w.Some? && w.value.lo == lo - 1 ==> !WindowReads(s, lo + 1, hi + 1, ref)
  {
    if WindowReads(s, lo, hi, ref) then Some(Window(lo, hi, false))
    else if WindowReads(s, lo + 1, hi + 1, ref) then Some(Window(lo + 1, hi + 1, true))
    else if WindowReads(s, lo - 1, hi - 1, ref) then Some(Window(lo - 1, hi - 1, true))
    else None
  }

  /** Where a slice bound `k` falls in a sequence of length `n`, as Python reads
      `s[:k]` and `s[k:]`: negative bounds count from the end, and bounds are clamped. */
  function SliceBound(k: int, n: nat): (b: nat)
    ensures b <= n
    ensures 0 <= k <= n ==> b == k
  {
    if k < 0 then (if k + n < 0 then 0 else k + n) else if k > n then n else k
  }

  /** apply_hgvs. Coordinates are converted to 0-based `start` and `end`; the window
      of a descriptor is `[start, end + 1)`. Deletion and duplication fall back to the
      window one base 3' and then one base 5' of the stated one; substitution and
      deletion-insertion need the stated window; insertion reads no reference. */
  function ApplyHgvs(s: string, h: Mutation): (r: Result<Edited>)
    ensures h.kind != CDna ==> r == Err(UnsupportedKind)
    ensures h.kind == CDna && h.mutationType.Other? ==> r == Err(UnexpectedMutationType)
    ensures h.kind == CDna && !h.mutationType.Other? && r.Err? ==> r.error == SequenceMismatch
    ensures h.kind == CDna && h.mutationType.Insertion? ==> r.Ok?
    ensures r.Ok? && h.mutationType.Deletion? ==> |r.value.sequence| == |s| - |h.refAllele|
    ensures r.Ok? && h.mutationType.Insertion? ==> |r.value.sequence| == |s| + |h.altAllele|
    ensures r.Ok? && (h.mutationType.Substitution? || h.mutationType.Duplication? || h.mutationType.DelIns?) ==>
              |r.value.sequence| == |s| - |h.refAllele| + |h.altAllele|
    ensures r.Ok? && r.value.offByOneWarning ==> h.mutationType.Duplication?
  {
    if h.kind != CDna then Err(UnsupportedKind)
    else
      var start, end := h.cdnaStart - 1, h.cdnaEnd - 1;
      var ref, alt := h.refAllele, h.altAllele;
      match h.mutationType
      case Substitution =>
        if WindowReads(s, start, start + 1, ref) then Ok(Edited(Splice(s, start, start + 1, alt), false))
        else Err(SequenceMismatch)
      case Deletion =>
        (match DriftedWindow(s, start, end + 1, ref)
         case Some(w) => Ok(Edited(Splice(s, w.lo, w.hi, []), false))
         case None => Err(SequenceMismatch))
      case Insertion =>
        var k := SliceBound(start + 1, |s|);
        Ok(Edited(s[..k] + alt + s[k..], false))
      case Duplication =>
        (match DriftedWindow(s, start, end + 1, ref)
         case Some(w) => Ok(Edited(Splice(s, w.lo, w.hi, alt), w.shifted))
         case None => Err(SequenceMismatch))
      case DelIns =>
        if WindowReads(s, start, end + 1, ref) then Ok(Edited(Splice(s, start, end + 1, alt), false))
        else Err(SequenceMismatch)
      case Other(_) => Err(UnexpectedMutationType)
  }

  /** A substitution needs the base at 1-based position `cdnaStart` to be the
      reference allele; it then changes that base, and only that base, to `alt`. */
  lemma SubstitutionSpec(s: string, h: Mutation)
    requires h.kind == CDna && h.mutationType.Substitution?
    ensures var r := ApplyHgvs(s, h);
      (r.Ok? <==> 1 <= h.cdnaStart <= |s| && h.refAllele == [s[h.cdnaStart - 1]]) &&
      (r.Ok? ==> !r.value.offByOneWarning &&
                 ReplacedAt(s, r.value.sequence, h.cdnaStart - 1, h.refAllele, h.altAllele))
    ensures var r := ApplyHgvs(s, h);
      r.Ok? && |h.altAllele| == 1 ==>
        |r.value.sequence| == |s| && r.value.sequence[h.cdnaStart - 1] == h.altAllele[0] &&
        forall i :: 0 <= i < |s| && i != h.cdnaStart - 1 ==> r.value.sequence[i] == s[i]
  {
    var r := ApplyHgvs(s, h);
    if r.Ok? && |h.altAllele| == 1 {
      var t, p := r.value.sequence, h.cdnaStart - 1;
      forall i | 0 <= i < |s| && i != p
        ensures t[i] == s[i]
      {
        if i < p {
          assert t[..p][i] == s[..p][i];
        } else {
          assert t[p + 1..][i - p - 1] == s[p + 1..][i - p - 1];
        }
      }
    }
  }

  /** Undoing a substitution: applying the substitution with the alleles swapped to its
      result gives back the original sequence. */
  lemma SubstitutionInverse(s: string, h: Mutation)
    requires h.kind == CDna && h.mutationType.Substitution?
    requires |h.altAllele| == 1 && ApplyHgvs(s, h).Ok?
    ensures ApplyHgvs(ApplyHgvs(s, h).value.sequence, h.(refAllele := h.altAllele, altAllele := h.refAllele))
            == Ok(Edited(s, false))
  {
    var p := h.cdnaStart - 1;
    var t := ApplyHgvs(s, h).value.sequence;
    assert t == s[..p] + h.altAllele + s[p + 1..];
    assert t[p..p + 1] == h.altAllele;
    assert t[..p] + h.refAllele + t[p + 1..] == s[..p] + s[p..p + 1] + s[p + 1..];
    assert s[..p] + s[p..p + 1] + s[p + 1..] == s;
  }

  /** A deletion removes the window chosen by the off-by-one policy, and fails when
      there is none; it never warns. */
  lemma DeletionSpec(s: string, h: Mutation)
    requires h.kind == CDna && h.mutationType.Deletion?
    ensures var r, w := ApplyHgvs(s, h), DriftedWindow(s, h.cdnaStart - 1, h.cdnaEnd, h.refAllele);
      (r.Ok? <==> w.Some?) &&
      (r.Ok? ==> !r.value.offByOneWarning && ReplacedAt(s, r.value.sequence, w.value.lo, h.refAllele, []))
  {
    var w := DriftedWindow(s, h.cdnaStart - 1, h.cdnaEnd, h.refAllele);
    if w.Some? {
      SpliceReplaces(s, w.value.lo, w.value.hi, h.refAllele, []);
    }
  }

  /** An insertion reads no reference: it puts `alt` right after 1-based position
      `cdnaStart`, keeping everything before and after it. */
  lemma InsertionSpec(s: string, h: Mutation)
    requires h.kind == CDna && h.mutationType.Insertion?
    requires 0 <= h.cdnaStart <= |s|
    ensures var r := ApplyHgvs(s, h);
      r.Ok? && !r.value.offByOneWarning &&
      ReplacedAt(s, r.value.sequence, h.cdnaStart, [], h.altAllele)
  {
  }

  /** An insertion point outside the sequence is read as a Python slice bound: past
      the end it appends, a negative one counts from the end, and one before the start
      prepends. */
  lemma InsertionOutsideSequence(s: string, h: Mutation)
    requires h.kind == CDna && h.mutationType.Insertion?
    ensures h.cdnaStart > |s| ==> ApplyHgvs(s, h) == Ok(Edited(s + h.altAllele, false))
    ensures -|s| <= h.cdnaStart < 0 ==>
      ReplacedAt(s, ApplyHgvs(s, h).value.sequence, |s| + h.cdnaStart, [], h.altAllele)
    ensures h.cdnaStart < -|s| ==> ApplyHgvs(s, h) == Ok(Edited(h.altAllele + s, false))
  {
    var alt := h.altAllele;
    if h.cdnaStart > |s| {
      assert s[..|s|] + alt + s[|s|..] == s + alt;
    } else if h.cdnaStart < -|s| {
      assert s[..0] + alt + s[0..] == alt + s;
    } else if h.cdnaStart < 0 {
      var k := |s| + h.cdnaStart;
      var t := s[..k] + alt + s[k..];
      assert t[..k] == s[..k] && t[k..k + |alt|] == alt && t[k + |alt|..] == s[k..];
    }
  }

  /** A duplication replaces the window chosen by the same off-by-one policy by `alt`,
      fails when there is none, and warns exactly when that window is not the stated one. */
  lemma DuplicationSpec(s: string, h: Mutation)
    requires h.kind == CDna && h.mutationType.Duplication?
    ensures var r, w := ApplyHgvs(s, h), DriftedWindow(s, h.cdnaStart - 1, h.cdnaEnd, h.refAllele);
      (r.Ok? <==> w.Some?) &&
      (r.Ok? ==> (r.value.offByOneWarning <==> w.value.lo != h.cdnaStart - 1) &&
                 ReplacedAt(s, r.value.sequence, w.value.lo, h.refAllele, h.altAllele))
  {
    var w := DriftedWindow(s, h.cdnaStart - 1, h.cdnaEnd, h.refAllele);
    if w.Some? {
      SpliceReplaces(s, w.value.lo, w.value.hi, h.refAllele, h.altAllele);
    }
  }

  /** A deletion-insertion tolerates no drift: it succeeds exactly when the stated
      window reads the reference allele, and then replaces that window by `alt`. */
  lemma DelInsSpec(s: string, h: Mutation)
    requires h.kind == CDna && h.mutationType.DelIns?
    ensures var r, lo, hi := ApplyHgvs(s, h), h.cdnaStart - 1, h.cdnaEnd;
      (r.Ok? <==> WindowReads(s, lo, hi, h.refAllele)) &&
      (r.Ok? ==> !r.value.offByOneWarning && ReplacedAt(s, r.value.sequence, lo, h.refAllele, h.altAllele))
  {
  }
}
