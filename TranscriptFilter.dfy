/** Choosing the candidate descriptors of a transcript, ignoring a version suffix on
    the candidate's transcript id. */
module TranscriptFilter {
  import opened Hgvs

  /** `s.split(".")`: the fields of `s` between dots, at least one. */
  function SplitDots(s: string): (parts: seq<string>)
    ensures |parts| >= 1
    decreases |s|
  {
    if |s| == 0 then [""]
    else
      var init := SplitDots(s[..|s| - 1]);
      if s[|s| - 1] == '.' then init + [""]
      else init[..|init| - 1] + [init[|init| - 1] + [s[|s| - 1]]]
  }

  /** `".".join(parts)`. */
  function JoinDots(parts: seq<string>): string
  {
    if |parts| == 0 then ""
    else if |parts| == 1 then parts[0]
    else JoinDots(parts[..|parts| - 1]) + "." + parts[|parts| - 1]
  }

  /** `".".join(s.split(".")[:-1])`: the id with its last dot-separated field removed. */
  function WithoutVersion(s: string): string
  {
    var parts := SplitDots(s);
    JoinDots(parts[..|parts| - 1])
  }

  /** Everything before the last dot of `s`, or the empty string when `s` has no dot. */
  function BeforeLastDot(s: string): (r: string)
    ensures '.' !in s ==> r == ""
    ensures '.' in s ==> |r| < |s| && s[..|r|] == r && s[|r|] == '.' && '.' !in s[|r| + 1..]
    decreases |s|
  {
    if |s| == 0 then ""
    else if s[|s| - 1] == '.' then s[..|s| - 1]
    else BeforeLastDot(s[..|s| - 1])
  }

  /** A new empty last field adds a trailing dot to the joined string. */
  lemma JoinNewField(parts: seq<string>)
    requires |parts| >= 1
    ensures JoinDots(parts + [""]) == JoinDots(parts) + "."
  {
    assert (parts + [""])[..|parts|] == parts;
  }

  /** Extending the last field by a character extends the joined string by it. */
  lemma JoinExtendField(parts: seq<string>, c: char)
    requires |parts| >= 1
    ensures var n := |parts|;
      JoinDots(parts[..n - 1] + [parts[n - 1] + [c]]) == JoinDots(parts) + [c]
  {
    var n := |parts|;
    var extended := parts[..n - 1] + [parts[n - 1] + [c]];
    if n > 1 {
      assert extended[..n - 1] == parts[..n - 1];
    }
  }

  /** Joining what was split by dots gives back the string. */
  lemma {:induction false} JoinSplit(s: string)
    ensures JoinDots(SplitDots(s)) == s
    decreases |s|
  {
    if |s| > 0 {
      var s', c := s[..|s| - 1], s[|s| - 1];
      JoinSplit(s');
      assert s == s' + [c];
      if c == '.' {
        JoinNewField(SplitDots(s'));
      } else {
        JoinExtendField(SplitDots(s'), c);
      }
    }
  }

  /** Dropping the last dot-separated field and rejoining is taking what comes before
      the last dot. */
  lemma {:induction false} WithoutVersionIsBeforeLastDot(s: string)
    ensures WithoutVersion(s) == BeforeLastDot(s)
    decreases |s|
  {
    if |s| > 0 {
      var s', c := s[..|s| - 1], s[|s| - 1];
      var init, parts := SplitDots(s'), SplitDots(s);
      if c == '.' {
        assert parts[..|parts| - 1] == init;
        JoinSplit(s');
      } else {
        assert parts[..|parts| - 1] == init[..|init| - 1];
        WithoutVersionIsBeforeLastDot(s');
      }
    }
  }

  /** The filter of the driver: a candidate transcript id matches the primary one when
      it is that id, or that id followed by a version suffix. */
  predicate TranscriptMatches(primary: string, candidate: string)
  {
    primary == candidate || primary == WithoutVersion(candidate)
  }

  /** A candidate id matches exactly when it is the primary id, or the primary id, a dot
      and a last field without dots; an id without any dot also matches an empty
      primary id. */
  lemma TranscriptMatchesSpec(primary: string, candidate: string)
    ensures TranscriptMatches(primary, candidate) <==>
      candidate == primary ||
      (|candidate| > |primary| && candidate[..|primary|] == primary && candidate[|primary|] == '.' &&
       '.' !in candidate[|primary| + 1..]) ||
      ('.' !in candidate && primary == "")
  {
    WithoutVersionIsBeforeLastDot(candidate);
  }

  /** The candidates whose transcript matches `primary`, in their input order. */
  function CandidatesFor(primary: string, candidates: seq<Mutation>): (r: seq<Mutation>)
    ensures forall m :: m in r <==> m in candidates && TranscriptMatches(primary, m.transcript)
    ensures |r| <= |candidates|
  {
    if |candidates| == 0 then []
    else
      var init, last := candidates[..|candidates| - 1], candidates[|candidates| - 1];
      assert candidates == init + [last];
      CandidatesFor(primary, init) + (if TranscriptMatches(primary, last.transcript) then [last] else [])
  }

  /** A single candidate is kept exactly when its transcript matches. */
  lemma CandidatesForSingle(primary: string, c: Mutation)
    ensures CandidatesFor(primary, [c]) == if TranscriptMatches(primary, c.transcript) then [c] else []
  {
    assert [c][..0] == [];
  }

  /** Appending one candidate appends it to the filtered list exactly when it matches. */
  lemma CandidatesForSnoc(primary: string, x: seq<Mutation>, c: Mutation)
    ensures CandidatesFor(primary, x + [c]) ==
      CandidatesFor(primary, x) + (if TranscriptMatches(primary, c.transcript) then [c] else [])
  {
    var xc := x + [c];
    assert xc[..|xc| - 1] == x && xc[|xc| - 1] == c;
  }

  /** Splitting the last element off the second part of a concatenation. */
  lemma ConcatLast<T>(x: seq<T>, y: seq<T>)
    requires |y| > 0
    ensures y == y[..|y| - 1] + [y[|y| - 1]]
    ensures x + y == (x + y[..|y| - 1]) + [y[|y| - 1]]
  {
  }

  lemma ConcatAssociative<T>(a: seq<T>, b: seq<T>, c: seq<T>)
    ensures (a + b) + c == a + (b + c)
  {
  }

  /** Filtering a concatenation filters each part and keeps them in order, so the
      filter keeps the input order and every repeated candidate, as a list
      comprehension does. */
  lemma {:induction false} CandidatesForAppend(primary: string, x: seq<Mutation>, y: seq<Mutation>)
    ensures CandidatesFor(primary, x + y) == CandidatesFor(primary, x) + CandidatesFor(primary, y)
    decreases |y|
  {
    if |y| == 0 {
      assert x + y == x;
    } else {
      var y', last := y[..|y| - 1], y[|y| - 1];
      ConcatLast(x, y);
      CandidatesForAppend(primary, x, y');
      CandidatesForSnoc(primary, x + y', last);
      CandidatesForSnoc(primary, y', last);
      ConcatAssociative(CandidatesFor(primary, x), CandidatesFor(primary, y'),
        if TranscriptMatches(primary, last.transcript) then [last] else []);
    }
  }
}
