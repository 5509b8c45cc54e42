/** The reference scanner of `createOverridePlaceholder`: the global regular
    expression `@(\w+)\/(\w+)` run with `exec` until it stops matching. */
module Scanner {
  import opened Text

  /** A resource reference `@kind/name`, as the two capture groups hold it. */
  datatype Ref = Ref(kind: string, name: string)

  /** One match of the scan: where its `@` stands and what it captured. */
  datatype Occurrence = Occurrence(at: nat, ref: Ref)

  /** A non-empty run of word characters, as `\w+` matches. */
  predicate IsWord(s: string) {
    |s| > 0 && forall i :: 0 <= i < |s| ==> IsWordChar(s[i])
  }

  predicate WellFormed(r: Ref) {
    IsWord(r.kind) && IsWord(r.name)
  }

  /** Length of the maximal run of word characters starting at `j`. */
  function WordRun(s: string, j: nat): (n: nat)
    requires j <= |s|
    decreases |s| - j
    ensures j + n <= |s|
  {
    if j < |s| && IsWordChar(s[j]) then 1 + WordRun(s, j + 1) else 0
  }

  /** The run `WordRun` measures is all word characters and cannot be
      extended. */
  lemma {:induction false} WordRunMaximal(s: string, j: nat)
    requires j <= |s|
    ensures forall k :: j <= k < j + WordRun(s, j) ==> IsWordChar(s[k])
    ensures j + WordRun(s, j) < |s| ==> !IsWordChar(s[j + WordRun(s, j)])
    decreases |s| - j
  {
    if j < |s| && IsWordChar(s[j]) {
      WordRunMaximal(s, j + 1);
    }
  }

  /** The pattern matches at `i` with a first group of `k` and a second group
      of `l` characters (any such split, not only the greedy one). */
  predicate PatternAt(s: string, i: nat, k: nat, l: nat) {
    && 1 <= k && 1 <= l && i + 2 + k + l <= |s|
    && s[i] == '@'
    && (forall m :: i + 1 <= m < i + 1 + k ==> IsWordChar(s[m]))
    && s[i + 1 + k] == '/'
    && (forall m :: i + 2 + k <= m < i + 2 + k + l ==> IsWordChar(s[m]))
  }

  /** The scanner's test at position `i`: an `@`, a maximal non-empty word
      run, a `/`, and another non-empty word run. */
  predicate MatchAt(s: string, i: nat) {
    && i < |s|
    && s[i] == '@'
    && var k := WordRun(s, i + 1);
    && k > 0
    && i + 1 + k < |s|
    && s[i + 1 + k] == '/'
    && WordRun(s, i + 2 + k) > 0
  }

  /** The position just past the (greedy) name of the match at `i`; the next
      search starts here, as `lastIndex` does. */
  function MatchEnd(s: string, i: nat): (e: nat)
    requires MatchAt(s, i)
    ensures i + 4 <= e <= |s|
    ensures e < |s| ==> !IsWordChar(s[e])
  {
    var k := WordRun(s, i + 1);
    WordRunMaximal(s, i + 2 + k);
    i + 2 + k + WordRun(s, i + 2 + k)
  }

  /** The two capture groups of the match at `i`. */
  function RefAt(s: string, i: nat): (r: Ref)
    requires MatchAt(s, i)
    ensures WellFormed(r)
  {
    var k := WordRun(s, i + 1);
    RunIsWord(s, i + 1);
    RunIsWord(s, i + 2 + k);
    Ref(s[i + 1..i + 1 + k], s[i + 2 + k..i + 2 + k + WordRun(s, i + 2 + k)])
  }

  /** The matched text is exactly `@`, the type, `/` and the name. */
  lemma RefAtText(s: string, i: nat)
    requires MatchAt(s, i)
    ensures s[i..MatchEnd(s, i)] == "@" + RefAt(s, i).kind + "/" + RefAt(s, i).name
  {
    SliceAround(s, i, i + 1 + WordRun(s, i + 1), MatchEnd(s, i));
  }

  /** A non-empty maximal run is a word. */
  lemma RunIsWord(s: string, j: nat)
    requires j <= |s| && WordRun(s, j) > 0
    ensures IsWord(s[j..j + WordRun(s, j)])
  {
    WordRunMaximal(s, j);
    var w := s[j..j + WordRun(s, j)];
    forall m | 0 <= m < |w| ensures IsWordChar(w[m]) {
      assert w[m] == s[j + m];
    }
  }

  /** A slice cut at two single characters. */
  lemma SliceAround(s: string, i: nat, m: nat, e: nat)
    requires i < m < e <= |s|
    ensures s[i..e] == [s[i]] + s[i + 1..m] + [s[m]] + s[m + 1..e]
  {
  }

  /** The scanner's test agrees with the regular expression: it holds exactly
      when some split of the pattern matches at `i`, and every such split has
      the captured type as its first group and at most the captured name as
      its second (the greedy choice is the longest). */
  lemma MatchAtIsPattern(s: string, i: nat)
    ensures MatchAt(s, i) <==> exists k, l :: PatternAt(s, i, k, l)
    ensures forall k: nat, l: nat :: PatternAt(s, i, k, l) ==>
      MatchAt(s, i) && k == |RefAt(s, i).kind| && l <= |RefAt(s, i).name|
  {
    if i < |s| {
      WordRunMaximal(s, i + 1);
      if i + 2 + WordRun(s, i + 1) <= |s| {
        WordRunMaximal(s, i + 2 + WordRun(s, i + 1));
      }
    }
    if MatchAt(s, i) {
      var k := WordRun(s, i + 1);
      assert PatternAt(s, i, k, WordRun(s, i + 2 + k));
    }
    forall k: nat, l: nat | PatternAt(s, i, k, l)
      ensures MatchAt(s, i) && k == |RefAt(s, i).kind| && l <= |RefAt(s, i).name|
    {
      WordRunMaximal(s, i + 1);
      WordRunMaximal(s, i + 2 + k);
    }
  }

  /** No `@` stands strictly inside a match, so matches never hide one another. */
  lemma NoAtInsideMatch(s: string, i: nat, q: nat)
    requires MatchAt(s, i)
    requires i < q < MatchEnd(s, i)
    ensures s[q] != '@'
  {
    WordRunMaximal(s, i + 1);
    WordRunMaximal(s, i + 2 + WordRun(s, i + 1));
  }

  /** Order carries over a recorded match: the rest starts past its end. */
  lemma ConsOrdered(s: string, from: nat, occ: seq<Occurrence>, rest: seq<Occurrence>)
    requires MatchAt(s, from)
    requires |occ| == |rest| + 1 && occ[0].at == from
    requires forall j :: 0 <= j < |rest| ==> occ[j + 1] == rest[j]
    requires forall j :: 0 <= j < |rest| ==> MatchEnd(s, from) <= rest[j].at && MatchAt(s, rest[j].at)
    requires forall j, k :: 0 <= j < k < |rest| ==> MatchEnd(s, rest[j].at) <= rest[k].at
    ensures forall j :: 0 <= j < |occ| ==> MatchAt(s, occ[j].at)
    ensures forall j, k :: 0 <= j < k < |occ| ==> MatchEnd(s, occ[j].at) <= occ[k].at
  {
    forall j | 0 <= j < |occ| ensures MatchAt(s, occ[j].at) {
      if j > 0 {
        assert occ[j] == rest[j - 1];
      }
    }
    forall j, k | 0 <= j < k < |occ|
      ensures MatchEnd(s, occ[j].at) <= occ[k].at
    {
      if j > 0 {
        assert occ[j] == rest[j - 1] && occ[k] == rest[k - 1];
      } else {
        assert occ[k] == rest[k - 1];
      }
    }
  }

  /** Completeness carries over a recorded match: nothing inside it can match. */
  lemma ConsComplete(s: string, from: nat, occ: seq<Occurrence>, rest: seq<Occurrence>)
    requires MatchAt(s, from)
    requires |occ| == |rest| + 1 && occ[0].at == from
    requires forall j :: 0 <= j < |rest| ==> occ[j + 1] == rest[j]
    requires forall q :: MatchEnd(s, from) <= q < |s| && MatchAt(s, q) ==>
      exists j :: 0 <= j < |rest| && rest[j].at == q
    ensures forall q :: from <= q < |s| && MatchAt(s, q) ==>
      exists j :: 0 <= j < |occ| && occ[j].at == q
  {
    forall q | from <= q < |s| && MatchAt(s, q)
      ensures exists j :: 0 <= j < |occ| && occ[j].at == q
    {
      if q == from {
        assert occ[0].at == q;
      } else if q < MatchEnd(s, from) {
        NoAtInsideMatch(s, from, q);
        assert false;
      } else {
        var j :| 0 <= j < |rest| && rest[j].at == q;
        assert occ[j + 1].at == q;
      }
    }
  }

  /** What the scan from `from` produces: only match positions at or after
      `from`, each with its captured groups, in increasing order and without
      overlap, and every match position at or after `from`. */
  predicate Scanned(s: string, from: nat, occ: seq<Occurrence>) {
    && (forall j :: 0 <= j < |occ| ==>
      && from <= occ[j].at
      && MatchAt(s, occ[j].at)
      && occ[j].ref == RefAt(s, occ[j].at))
    && (forall j, k :: 0 <= j < k < |occ| ==> MatchEnd(s, occ[j].at) <= occ[k].at)
    && (forall q :: from <= q < |s| && MatchAt(s, q) ==>
      exists j :: 0 <= j < |occ| && occ[j].at == q)
  }

  /** A recorded match in front of the scan past it is the scan from the
      match. */
  lemma ConsScan(s: string, from: nat, rest: seq<Occurrence>)
    requires MatchAt(s, from)
    requires Scanned(s, MatchEnd(s, from), rest)
    ensures Scanned(s, from, [Occurrence(from, RefAt(s, from))] + rest)
  {
    var occ := [Occurrence(from, RefAt(s, from))] + rest;
    assert forall j :: 0 <= j < |rest| ==> occ[j + 1] == rest[j];
    ConsOrdered(s, from, occ, rest);
    ConsComplete(s, from, occ, rest);
    forall j | 0 <= j < |occ|
      ensures from <= occ[j].at && occ[j].ref == RefAt(s, occ[j].at)
    {
      if j > 0 {
        assert occ[j] == rest[j - 1];
      }
    }
  }

  /** A position that does not match adds nothing to the scan past it. */
  lemma SkipScan(s: string, from: nat, rest: seq<Occurrence>)
    requires from < |s| && !MatchAt(s, from)
    requires Scanned(s, from + 1, rest)
    ensures Scanned(s, from, rest)
  {
  }

  /** The `exec` loop from position `from`: at a match record it and resume
      past the name, otherwise resume one character later. */
  function ScanFrom(s: string, from: nat): (occ: seq<Occurrence>)
    requires from <= |s|
    decreases |s| - from
    ensures Scanned(s, from, occ)
  {
    if from == |s| then []
    else if MatchAt(s, from) then
      var rest := ScanFrom(s, MatchEnd(s, from));
      ConsScan(s, from, rest);
      [Occurrence(from, RefAt(s, from))] + rest
    else
      var rest := ScanFrom(s, from + 1);
      SkipScan(s, from, rest);
      rest
  }

  /** The captured references of a list of occurrences, in order. */
  function RefsOf(occ: seq<Occurrence>): (refs: seq<Ref>)
    ensures |refs| == |occ|
    ensures forall j :: 0 <= j < |occ| ==> refs[j] == occ[j].ref
  {
    if |occ| == 0 then [] else [occ[0].ref] + RefsOf(occ[1..])
  }

  /** The `(type, name)` pairs of `createOverridePlaceholder`'s `items`: one
      well-formed pair per match, duplicates kept; none exactly when nothing
      in `s` matches. */
  function Scan(s: string): (refs: seq<Ref>)
    ensures forall j :: 0 <= j < |refs| ==> WellFormed(refs[j])
    ensures |refs| == 0 <==> forall i :: 0 <= i < |s| ==> !MatchAt(s, i)
  {
    var occ := ScanFrom(s, 0);
    assert |occ| > 0 ==> MatchAt(s, occ[0].at);
    RefsOf(occ)
  }

  /** Proof aid: the captured references from `from` on, stepping as the
      scan does but without positions. `FoundIsScan` shows it is the same
      list as `RefsOf(ScanFrom(s, from))`; the proofs about rendered text
      step through it because it carries no contract of its own. */
  function Found(s: string, from: nat): seq<Ref>
    requires from <= |s|
    decreases |s| - from
  {
    if from == |s| then []
    else if MatchAt(s, from) then [RefAt(s, from)] + Found(s, MatchEnd(s, from))
    else Found(s, from + 1)
  }

  /** The stepping description agrees with the scan. */
  lemma {:induction false} FoundIsScan(s: string, from: nat)
    requires from <= |s|
    ensures Found(s, from) == RefsOf(ScanFrom(s, from))
    decreases |s| - from
  {
    if from < |s| {
      if MatchAt(s, from) {
        var x := ScanFrom(s, MatchEnd(s, from));
        FoundIsScan(s, MatchEnd(s, from));
        assert ([Occurrence(from, RefAt(s, from))] + x)[1..] == x;
      } else {
        FoundIsScan(s, from + 1);
      }
    }
  }

  /** A run of exactly `n` word characters ending the text or followed by a
      non-word character is the maximal run. */
  lemma {:induction false} WordRunExact(s: string, j: nat, n: nat)
    requires j + n <= |s|
    requires forall k :: j <= k < j + n ==> IsWordChar(s[k])
    requires j + n < |s| ==> !IsWordChar(s[j + n])
    ensures WordRun(s, j) == n
    decreases n
  {
    if n > 0 {
      WordRunExact(s, j + 1, n - 1);
    }
  }

  /** The references written out as `@kind/name`, each followed by a space. */
  function Render(refs: seq<Ref>): string
  {
    if |refs| == 0 then "" else "@" + refs[0].kind + "/" + refs[0].name + " " + Render(refs[1..])
  }

  /** Round trip: scanning rendered references gives back exactly those
      references, in order and with repetitions. */
  lemma ScanRender(refs: seq<Ref>)
    requires forall j :: 0 <= j < |refs| ==> WellFormed(refs[j])
    ensures Scan(Render(refs)) == refs
  {
    assert Render(refs)[0..] == Render(refs);
    ScanRenderAt(Render(refs), 0, refs);
    FoundIsScan(Render(refs), 0);
  }

  /** The round trip from any position where the rendering starts. */
  lemma {:induction false} ScanRenderAt(s: string, p: nat, refs: seq<Ref>)
    requires p <= |s| && s[p..] == Render(refs)
    requires forall j :: 0 <= j < |refs| ==> WellFormed(refs[j])
    ensures Found(s, p) == refs
    decreases |refs|, 1
  {
    if |refs| == 0 {
      assert p == |s|;
    } else {
      ScanRenderStep(s, p, refs);
    }
  }

  /** The inductive step of `ScanRenderAt`. */
  lemma {:induction false} ScanRenderStep(s: string, p: nat, refs: seq<Ref>)
    requires |refs| > 0 && p <= |s| && s[p..] == Render(refs)
    requires forall j :: 0 <= j < |refs| ==> WellFormed(refs[j])
    ensures Found(s, p) == refs
    decreases |refs|, 0
  {
    var r := refs[0];
    var q := p + 3 + |r.kind| + |r.name|;
    RenderedStep(s, p, refs);
    ScanRenderAt(s, q, refs[1..]);
    calc {
      Found(s, p);
      [r] + Found(s, q);
      [r] + refs[1..];
      refs;
    }
  }

  /** The first rendered reference is found, and the scan goes on past the
      space after it. */
  lemma RenderedStep(s: string, p: nat, refs: seq<Ref>)
    requires |refs| > 0 && p <= |s| && s[p..] == Render(refs)
    requires WellFormed(refs[0])
    ensures p + 3 + |refs[0].kind| + |refs[0].name| <= |s|
    ensures s[p + 3 + |refs[0].kind| + |refs[0].name|..] == Render(refs[1..])
    ensures Found(s, p) == [refs[0]] + Found(s, p + 3 + |refs[0].kind| + |refs[0].name|)
  {
    var r := refs[0];
    RenderedHead(s, p, refs);
    WrittenFound(s, p, r);
    FoundSkip(s, p + 2 + |r.kind| + |r.name|);
  }

  /** The first rendered reference: its token, the space after it, and the
      rendering of the others. */
  lemma RenderedHead(s: string, p: nat, refs: seq<Ref>)
    requires |refs| > 0 && p <= |s| && s[p..] == Render(refs)
    ensures p + 3 + |refs[0].kind| + |refs[0].name| <= |s|
    ensures s[p..p + 2 + |refs[0].kind| + |refs[0].name|] == "@" + refs[0].kind + "/" + refs[0].name
    ensures s[p + 2 + |refs[0].kind| + |refs[0].name|] == ' '
    ensures s[p + 3 + |refs[0].kind| + |refs[0].name|..] == Render(refs[1..])
  {
    var t := "@" + refs[0].kind + "/" + refs[0].name;
    assert s[p..] == t + " " + Render(refs[1..]);
    assert s[p..p + |t|] == s[p..][..|t|];
    assert s[p + |t|] == s[p..][|t|];
    assert s[p + |t| + 1..] == s[p..][|t| + 1..];
  }

  /** A reference written out as `@kind/name` and not followed by a word
      character is one match, capturing exactly that reference. */
  lemma WrittenMatch(s: string, p: nat, r: Ref)
    requires WellFormed(r)
    requires p + 2 + |r.kind| + |r.name| <= |s|
    requires s[p..p + 2 + |r.kind| + |r.name|] == "@" + r.kind + "/" + r.name
    requires p + 2 + |r.kind| + |r.name| < |s| ==> !IsWordChar(s[p + 2 + |r.kind| + |r.name|])
    ensures MatchAt(s, p)
    ensures MatchEnd(s, p) == p + 2 + |r.kind| + |r.name|
    ensures RefAt(s, p) == r
  {
    var k := |r.kind|;
    var e := p + 2 + k + |r.name|;
    WrittenPieces(s, p, r.kind, r.name);
    WordAt(s, p + 1, r.kind);
    WordAt(s, p + 2 + k, r.name);
    assert MatchAt(s, p);
    assert MatchEnd(s, p) == e;
    RefAtSlices(s, p);
  }

  /** The capture groups are the slices between `@`, `/` and the end. */
  lemma RefAtSlices(s: string, i: nat)
    requires MatchAt(s, i)
    ensures RefAt(s, i).kind == s[i + 1..i + 1 + WordRun(s, i + 1)]
    ensures RefAt(s, i).name == s[i + 2 + WordRun(s, i + 1)..MatchEnd(s, i)]
  {
  }

  /** A word standing at `j` and not followed by a word character is the
      maximal run there. */
  lemma WordAt(s: string, j: nat, w: string)
    requires IsWord(w) && j + |w| <= |s|
    requires s[j..j + |w|] == w
    requires j + |w| < |s| ==> !IsWordChar(s[j + |w|])
    ensures WordRun(s, j) == |w|
  {
    forall k | j <= k < j + |w| ensures IsWordChar(s[k]) {
      assert s[k] == w[k - j];
    }
    WordRunExact(s, j, |w|);
  }

  /** The pieces of a written reference, recovered by slicing. */
  lemma WrittenPieces(s: string, p: nat, a: string, b: string)
    requires p + 2 + |a| + |b| <= |s|
    requires s[p..p + 2 + |a| + |b|] == "@" + a + "/" + b
    ensures s[p] == '@' && s[p + 1 + |a|] == '/'
    ensures s[p + 1..p + 1 + |a|] == a
    ensures s[p + 2 + |a|..p + 2 + |a| + |b|] == b
  {
    var t := s[p..p + 2 + |a| + |b|];
    assert s[p] == t[0];
    assert s[p + 1 + |a|] == t[1 + |a|];
    forall m | 0 <= m < |a| ensures s[p + 1 + m] == a[m] {
      assert s[p + 1 + m] == t[1 + m];
    }
    forall m | 0 <= m < |b| ensures s[p + 2 + |a| + m] == b[m] {
      assert s[p + 2 + |a| + m] == t[2 + |a| + m];
    }
    assert s[p + 1..p + 1 + |a|] == a;
    assert s[p + 2 + |a|..p + 2 + |a| + |b|] == b;
  }

  /** Positions without an `@` are passed over. */
  lemma {:induction false} SkipWithoutAt(s: string, from: nat, to: nat)
    requires from <= to <= |s|
    requires '@' !in s[from..to]
    ensures Found(s, from) == Found(s, to)
    decreases |s| - from
  {
    if from < to {
      assert s[from] == s[from..to][0];
      assert s[from + 1..to] == s[from..to][1..];
      FoundSkip(s, from);
      SkipWithoutAt(s, from + 1, to);
    }
  }

  /** The left-to-right scan does not let a failed `@` swallow the next one:
      in `@@a/b/c` only `@a/b` matches. */
  lemma ScanExample()
    ensures Scan("@@a/b/c") == [Ref("a", "b")]
  {
    var s := "@@a/b/c";
    WordRunExact(s, 1, 0);
    WordRunExact(s, 2, 1);
    WordRunExact(s, 4, 1);
    assert !MatchAt(s, 0);
    assert MatchAt(s, 1) && MatchEnd(s, 1) == 5;
    assert RefAt(s, 1) == Ref("a", "b");
    assert !MatchAt(s, 5) && !MatchAt(s, 6);
    assert Found(s, 5) == [];
    FoundIsScan(s, 0);
  }

  /** One written reference amid text without any other `@` is all the scan
      finds, provided no word character directly follows it. */
  lemma ScanLone(pre: string, r: Ref, suf: string)
    requires WellFormed(r)
    requires '@' !in pre && '@' !in suf
    requires |suf| > 0 ==> !IsWordChar(suf[0])
    ensures Scan(pre + "@" + r.kind + "/" + r.name + suf) == [r]
  {
    var t := "@" + r.kind + "/" + r.name;
    var s := pre + t + suf;
    assert s == pre + "@" + r.kind + "/" + r.name + suf;
    ThreeParts(pre, t, suf);
    FoundLone(s, |pre|, r);
    FoundIsScan(s, 0);
  }

  /** The three parts of a concatenation, recovered by slicing. */
  lemma ThreeParts(a: string, b: string, c: string)
    ensures (a + b + c)[0..|a|] == a
    ensures (a + b + c)[|a|..|a| + |b|] == b
    ensures (a + b + c)[|a| + |b|..] == c
  {
  }

  /** `ScanLone` on the stepping description, for the reference at `p`. */
  lemma FoundLone(s: string, p: nat, r: Ref)
    requires WellFormed(r)
    requires p + 2 + |r.kind| + |r.name| <= |s|
    requires s[p..p + 2 + |r.kind| + |r.name|] == "@" + r.kind + "/" + r.name
    requires '@' !in s[0..p] && '@' !in s[p + 2 + |r.kind| + |r.name|..]
    requires p + 2 + |r.kind| + |r.name| < |s| ==> !IsWordChar(s[p + 2 + |r.kind| + |r.name|])
    ensures Found(s, 0) == [r]
  {
    SkipWithoutAt(s, 0, p);
    FoundLast(s, p, r);
  }

  /** A written reference followed by no other `@` is the last one found. */
  lemma FoundLast(s: string, p: nat, r: Ref)
    requires WellFormed(r)
    requires p + 2 + |r.kind| + |r.name| <= |s|
    requires s[p..p + 2 + |r.kind| + |r.name|] == "@" + r.kind + "/" + r.name
    requires '@' !in s[p + 2 + |r.kind| + |r.name|..]
    requires p + 2 + |r.kind| + |r.name| < |s| ==> !IsWordChar(s[p + 2 + |r.kind| + |r.name|])
    ensures Found(s, p) == [r]
  {
    WrittenFound(s, p, r);
    SkipToEnd(s, p + 2 + |r.kind| + |r.name|);
  }

  /** Without any further `@` nothing more is found. */
  lemma SkipToEnd(s: string, from: nat)
    requires from <= |s| && '@' !in s[from..]
    ensures Found(s, from) == []
  {
    assert s[from..|s|] == s[from..];
    SkipWithoutAt(s, from, |s|);
  }

  /** A written reference is recorded, and the scan goes on past its name. */
  lemma WrittenFound(s: string, p: nat, r: Ref)
    requires WellFormed(r)
    requires p + 2 + |r.kind| + |r.name| <= |s|
    requires s[p..p + 2 + |r.kind| + |r.name|] == "@" + r.kind + "/" + r.name
    requires p + 2 + |r.kind| + |r.name| < |s| ==> !IsWordChar(s[p + 2 + |r.kind| + |r.name|])
    ensures Found(s, p) == [r] + Found(s, p + 2 + |r.kind| + |r.name|)
  {
    WrittenMatch(s, p, r);
    FoundMatch(s, p);
  }

  /** One step of the scan at a match. */
  lemma FoundMatch(s: string, p: nat)
    requires MatchAt(s, p)
    ensures Found(s, p) == [RefAt(s, p)] + Found(s, MatchEnd(s, p))
  {
  }

  /** One step of the scan past a character that is not `@`. */
  lemma FoundSkip(s: string, p: nat)
    requires p < |s| && s[p] != '@'
    ensures Found(s, p) == Found(s, p + 1)
  {
  }

  /** A colour reference inside an attribute value is found on its own. */
  lemma ScanAttributeExample()
    ensures Scan("<path android:fillColor=\"" + "@" + "color" + "/" + "colorAccent" + "\"/>")
      == [Ref("color", "colorAccent")]
  {
    var r := Ref("color", "colorAccent");
    assert IsWord(r.kind) && IsWord(r.name);
    ScanLone("<path android:fillColor=\"", r, "\"/>");
  }
}
