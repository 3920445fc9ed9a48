/**
  Literal string operations used by both scripts: substring search
  (String#index, String#match on a literal alternation) and global literal
  substitution (String#gsub and gsub! with a literal or an escaped-literal
  pattern).
 */
module Text {
  import opened Wrappers

  /** `t` occurs in `s` starting at index `k`. */
  predicate OccursAt(s: string, t: string, k: nat) {
    k + |t| <= |s| && s[k..k + |t|] == t
  }

  /** Index of the first occurrence of `t` in `s` at or after `i` (String#index). */
  function IndexFrom(s: string, t: string, i: nat): (r: Option<nat>)
    decreases |s| - i
    ensures r.Some? ==> i <= r.value && OccursAt(s, t, r.value)
    ensures r.Some? ==> forall k :: i <= k < r.value ==> !OccursAt(s, t, k)
    ensures r.None? ==> forall k :: i <= k ==> !OccursAt(s, t, k)
  {
    if |s| < i + |t| then None
    else if s[i..i + |t|] == t then Some(i)
    else IndexFrom(s, t, i + 1)
  }

  /** `t` is a substring of `s` (a regular-expression match on a literal). */
  predicate Contains(s: string, t: string) {
    IndexFrom(s, t, 0).Some?
  }

  lemma ContainsIff(s: string, t: string)
    ensures Contains(s, t) <==> exists k :: OccursAt(s, t, k)
  {
    if Contains(s, t) {
      assert OccursAt(s, t, IndexFrom(s, t, 0).value);
    }
  }

  /** A text placed between two others is a substring of the whole. */
  lemma ContainsInConcat(a: string, t: string, b: string)
    ensures Contains(a + t + b, t)
  {
    assert OccursAt(a + t + b, t, |a|);
  }

  /**
    String#gsub with a literal needle `p`: scanning left to right, every
    non-overlapping occurrence of `p` is replaced by `r`.
   */
  function ReplaceAll(s: string, p: string, r: string): string
    requires p != []
    decreases |s|
  {
    if |p| <= |s| && s[..|p|] == p then r + ReplaceAll(s[|p|..], p, r)
    else if s == [] then []
    else [s[0]] + ReplaceAll(s[1..], p, r)
  }

  /** Number of replacements ReplaceAll makes. */
  function Count(s: string, p: string): nat
    requires p != []
    decreases |s|
  {
    if |p| <= |s| && s[..|p|] == p then 1 + Count(s[|p|..], p)
    else if s == [] then 0
    else Count(s[1..], p)
  }

  lemma OccursInTail(s: string, t: string, k: nat)
    requires s != []
    ensures OccursAt(s[1..], t, k) <==> OccursAt(s, t, k + 1)
  {
    if k + 1 + |t| <= |s| {
      assert s[1..][k..k + |t|] == s[k + 1..k + 1 + |t|];
    }
  }

  lemma OccursInDrop(s: string, t: string, n: nat, k: nat)
    requires n <= |s|
    ensures OccursAt(s[n..], t, k) <==> OccursAt(s, t, n + k)
  {
    if n + k + |t| <= |s| {
      assert s[n..][k..k + |t|] == s[n + k..n + k + |t|];
    }
  }

  /** Text without the needle comes out of a substitution unchanged. */
  lemma {:induction false} ReplaceAbsent(s: string, p: string, r: string)
    requires p != []
    requires !Contains(s, p)
    ensures ReplaceAll(s, p, r) == s
    ensures Count(s, p) == 0
    decreases |s|
  {
    assert !OccursAt(s, p, 0);
    if s != [] {
      forall k: nat ensures !OccursAt(s[1..], p, k) {
        OccursInTail(s, p, k);
      }
      ReplaceAbsent(s[1..], p, r);
    }
  }

  /** `i` is the first index at which `p` occurs in `s`. */
  predicate FirstAt(s: string, p: string, i: nat) {
    OccursAt(s, p, i) && forall k :: 0 <= k < i ==> !OccursAt(s, p, k)
  }

  lemma FirstIndex(s: string, p: string)
    requires Contains(s, p)
    ensures FirstAt(s, p, IndexFrom(s, p, 0).value)
  {
  }

  /** Conversely, String#index from 0 reports the first occurrence. */
  lemma FirstAtIsIndex(s: string, p: string, i: nat)
    requires FirstAt(s, p, i)
    ensures Contains(s, p) && IndexFrom(s, p, 0) == Some(i)
  {
  }

  /** At an occurrence, the needle is replaced and the scan jumps past it. */
  lemma ReplaceHere(s: string, p: string, r: string)
    requires p != [] && OccursAt(s, p, 0)
    ensures ReplaceAll(s, p, r) == r + ReplaceAll(s[|p|..], p, r)
    ensures Count(s, p) == 1 + Count(s[|p|..], p)
  {
    assert s[..|p|] == p;
  }

  /** Elsewhere, one character is copied and the scan moves on by one. */
  lemma ReplaceSkip(s: string, p: string, r: string)
    requires p != [] && s != [] && !OccursAt(s, p, 0)
    ensures ReplaceAll(s, p, r) == [s[0]] + ReplaceAll(s[1..], p, r)
    ensures Count(s, p) == Count(s[1..], p)
  {
  }

  /**
    The substitution acts at the first occurrence of the needle: the text
    before it is untouched, the occurrence becomes `r`, and the scan resumes
    right after it. With ReplaceAbsent this determines ReplaceAll completely.
   */
  lemma {:induction false} ReplaceAtFirst(s: string, p: string, r: string, i: nat)
    requires p != []
    requires FirstAt(s, p, i)
    ensures ReplaceAll(s, p, r) == s[..i] + r + ReplaceAll(s[i + |p|..], p, r)
    ensures Count(s, p) == 1 + Count(s[i + |p|..], p)
    decreases i
  {
    if i == 0 {
      ReplaceHere(s, p, r);
    } else {
      OccursInTail(s, p, i - 1);
      forall k: nat | k < i - 1 ensures !OccursAt(s[1..], p, k) {
        OccursInTail(s, p, k);
      }
      ReplaceAtFirst(s[1..], p, r, i - 1);
      ReplaceFirstStep(s, p, r, i);
    }
  }

  /** The step of ReplaceAtFirst past a leading character that starts no occurrence. */
  lemma ReplaceFirstStep(s: string, p: string, r: string, i: nat)
    requires p != [] && 0 < i && FirstAt(s, p, i)
    requires ReplaceAll(s[1..], p, r) == s[1..][..i - 1] + r + ReplaceAll(s[1..][i - 1 + |p|..], p, r)
    requires Count(s[1..], p) == 1 + Count(s[1..][i - 1 + |p|..], p)
    ensures ReplaceAll(s, p, r) == s[..i] + r + ReplaceAll(s[i + |p|..], p, r)
    ensures Count(s, p) == 1 + Count(s[i + |p|..], p)
  {
    assert !OccursAt(s, p, 0);
    ReplaceSkip(s, p, r);
    assert s[1..][i - 1 + |p|..] == s[i + |p|..];
    JoinAfterHead(s, i, r, ReplaceAll(s[i + |p|..], p, r));
  }

  /** Putting the first character back in front of a split of the rest. */
  lemma JoinAfterHead(s: string, i: nat, r: string, tail: string)
    requires 0 < i <= |s|
    ensures [s[0]] + (s[1..][..i - 1] + r + tail) == s[..i] + r + tail
  {
    assert s[..i] == [s[0]] + s[1..][..i - 1];
  }

  /** A needle occurring once, at its first occurrence, is replaced exactly there. */
  lemma ReplaceOnce(s: string, p: string, r: string, i: nat)
    requires p != [] && FirstAt(s, p, i) && !Contains(s[i + |p|..], p)
    ensures ReplaceAll(s, p, r) == s[..i] + r + s[i + |p|..]
  {
    ReplaceAtFirst(s, p, r, i);
    ReplaceAbsent(s[i + |p|..], p, r);
  }

  /** No earlier character can start the needle, so `i` is its first occurrence. */
  lemma FirstByLead(s: string, p: string, i: nat)
    requires p != [] && OccursAt(s, p, i)
    requires forall k :: 0 <= k < i ==> s[k] != p[0]
    ensures FirstAt(s, p, i)
  {
    forall k | 0 <= k < i ensures !OccursAt(s, p, k) {
      if k + |p| <= |s| { assert s[k..k + |p|][0] == s[k]; }
    }
  }

  /** Some character of the needle never appears in `s`, so the needle does not occur. */
  lemma AbsentByChar(s: string, p: string, j: nat)
    requires j < |p| && p[j] !in s
    ensures !Contains(s, p)
  {
    forall k: nat ensures !OccursAt(s, p, k) {
      if k + |p| <= |s| { assert s[k..k + |p|][j] == s[k + j]; }
    }
  }

  lemma AbsentByLead(s: string, p: string)
    requires p != [] && p[0] !in s
    ensures !Contains(s, p)
  {
    AbsentByChar(s, p, 0);
  }

  /** A needle without the separator cannot straddle it. */
  lemma AbsentAcross(a: string, c: char, b: string, t: string)
    requires c !in t && !Contains(a, t) && !Contains(b, t)
    ensures !Contains(a + [c] + b, t)
  {
    var s := a + [c] + b;
    forall k: nat ensures !OccursAt(s, t, k) {
      if k + |t| <= |a| {
        assert s[k..k + |t|] == a[k..k + |t|];
        assert !OccursAt(a, t, k);
      } else if k > |a| {
        if k + |t| <= |s| {
          assert s[k..k + |t|] == b[k - |a| - 1..k - |a| - 1 + |t|];
          assert !OccursAt(b, t, k - |a| - 1);
        }
      } else if k + |t| <= |s| {
        assert s[k..k + |t|][|a| - k] == c;
        assert c in s[k..k + |t|];
      }
    }
  }

  /**
    ReplaceAll leaves a prefix alone as long as it holds no character that
    could start the needle.
   */
  lemma {:induction false} ReplaceKeepsPrefix(s: string, p: string, r: string, n: nat)
    requires p != [] && n <= |s|
    requires forall j :: 0 <= j < n ==> s[j] != p[0]
    ensures |ReplaceAll(s, p, r)| >= n && ReplaceAll(s, p, r)[..n] == s[..n]
    decreases n
  {
    if n > 0 {
      assert s[0] != p[0];
      ReplaceKeepsPrefix(s[1..], p, r, n - 1);
      assert ReplaceAll(s, p, r) == [s[0]] + ReplaceAll(s[1..], p, r);
    } else {
      ReplaceLength(s, p, r);
    }
  }

  lemma {:induction false} ReplaceLength(s: string, p: string, r: string)
    requires p != []
    ensures |ReplaceAll(s, p, r)| == |s| + Count(s, p) * (|r| - |p|)
    decreases |s|
  {
    if |p| <= |s| && s[..|p|] == p {
      ReplaceHere(s, p, r);
      ReplaceLength(s[|p|..], p, r);
      Distribute(Count(s[|p|..], p), |r| - |p|);
    } else if s != [] {
      ReplaceSkip(s, p, r);
      ReplaceLength(s[1..], p, r);
    }
  }

  lemma Distribute(c: int, d: int)
    ensures (1 + c) * d == d + c * d
  {
  }

  /**
    An occurrence of `q` survives a substitution of `p` when neither needle
    can begin inside the other: no `p` can then straddle or sit inside it.
   */
  lemma {:induction false} ReplaceKeepsOccurrence(s: string, p: string, r: string, q: string, k: nat)
    requires p != [] && q != []
    requires p[0] !in q && q[0] !in p
    requires OccursAt(s, q, k)
    ensures Contains(ReplaceAll(s, p, r), q)
    decreases |s|
  {
    var out := ReplaceAll(s, p, r);
    if |p| <= |s| && s[..|p|] == p {
      if k < |p| {
        assert false;
      }
      OccursInDrop(s, q, |p|, k - |p|);
      ReplaceKeepsOccurrence(s[|p|..], p, r, q, k - |p|);
      var j := IndexFrom(ReplaceAll(s[|p|..], p, r), q, 0).value;
      OccursInDrop(out, q, |r|, j);
      assert out[|r|..] == ReplaceAll(s[|p|..], p, r);
    } else if k == 0 {
      forall j | 0 <= j < |q| ensures s[j] != p[0] {
        assert s[j] == q[j];
      }
      ReplaceKeepsPrefix(s, p, r, |q|);
      assert OccursAt(out, q, 0);
    } else {
      OccursInTail(s, q, k - 1);
      ReplaceKeepsOccurrence(s[1..], p, r, q, k - 1);
      var j := IndexFrom(ReplaceAll(s[1..], p, r), q, 0).value;
      OccursInTail(out, q, j);
      assert out[1..] == ReplaceAll(s[1..], p, r);
    }
  }

  /** Replacing a one-character needle by text without it removes that character. */
  lemma {:induction false} ReplaceCharRemoves(s: string, c: char, r: string)
    requires c !in r
    ensures c !in ReplaceAll(s, [c], r)
    decreases |s|
  {
    if 1 <= |s| && s[..1] == [c] {
      ReplaceCharRemoves(s[1..], c, r);
    } else if s != [] {
      assert s[0] != c by { assert s[..1] == [s[0]]; }
      ReplaceCharRemoves(s[1..], c, r);
    }
  }

  // ---------------------------------------------------------------------
  // Insertion after a needle: gsub(needle, needle + ins)
  // ---------------------------------------------------------------------

  /** Every non-overlapping occurrence of `p`, scanned left to right, gets `ins` appended. */
  function InsertAfter(s: string, p: string, ins: string): string
    requires p != []
  {
    ReplaceAll(s, p, p + ins)
  }

  /** Deletes `ins` after every left-to-right occurrence of `p + ins`. */
  function Strip(t: string, p: string, ins: string): string
    requires p != []
    decreases |t|
  {
    var n := |p + ins|;
    if n <= |t| && t[..n] == p + ins then p + Strip(t[n..], p, ins)
    else if t == [] then []
    else [t[0]] + Strip(t[1..], p, ins)
  }

  /** Up to the length of the needle, insertion leaves the front of the text alone. */
  lemma {:induction false} InsertKeepsPrefix(s: string, p: string, ins: string, n: nat)
    requires p != [] && n <= |p| && n <= |s|
    ensures |InsertAfter(s, p, ins)| >= n && InsertAfter(s, p, ins)[..n] == s[..n]
    decreases n
  {
    var out := InsertAfter(s, p, ins);
    if n == 0 {
    } else if |p| <= |s| && s[..|p|] == p {
      assert out[..n] == p[..n];
    } else {
      InsertKeepsPrefix(s[1..], p, ins, n - 1);
      assert out == [s[0]] + InsertAfter(s[1..], p, ins);
    }
  }

  /** The substitution only inserts: deleting the inserted text recovers the input. */
  lemma {:induction false} StripInsert(s: string, p: string, ins: string)
    requires p != []
    ensures Strip(InsertAfter(s, p, ins), p, ins) == s
    decreases |s|
  {
    var out := InsertAfter(s, p, ins);
    var n := |p + ins|;
    if |p| <= |s| && s[..|p|] == p {
      StripInsert(s[|p|..], p, ins);
      assert out[..n] == p + ins;
      assert out[n..] == InsertAfter(s[|p|..], p, ins);
    } else if s != [] {
      StripInsert(s[1..], p, ins);
      assert out == [s[0]] + InsertAfter(s[1..], p, ins);
      if |p| <= |s| {
        InsertKeepsPrefix(s, p, ins, |p|);
        assert out[..|p|] != p;
        assert !(n <= |out| && out[..n] == p + ins) by {
          if n <= |out| {
            assert out[..n][..|p|] == out[..|p|];
          }
        }
      } else {
        assert !Contains(s, p);
        ReplaceAbsent(s, p, p + ins);
        assert |out| < n;
      }
      assert out[1..] == InsertAfter(s[1..], p, ins);
    }
  }

  /** Output length is input length plus |ins| for each occurrence found. */
  lemma InsertLength(s: string, p: string, ins: string)
    requires p != []
    ensures |InsertAfter(s, p, ins)| == |s| + Count(s, p) * |ins|
  {
    ReplaceLength(s, p, p + ins);
  }

  /**
    The first occurrence of the needle is followed by `ins` in the output, and
    the needle is still there: the output contains every needle it was given.
   */
  lemma InsertAtFirst(s: string, p: string, ins: string, i: nat)
    requires p != []
    requires FirstAt(s, p, i)
    ensures InsertAfter(s, p, ins) == s[..i] + p + ins + InsertAfter(s[i + |p|..], p, ins)
    ensures OccursAt(InsertAfter(s, p, ins), p + ins, i)
    ensures Contains(InsertAfter(s, p, ins), p)
  {
    ReplaceAtFirst(s, p, p + ins, i);
    var out := InsertAfter(s, p, ins);
    assert out == s[..i] + (p + ins) + InsertAfter(s[i + |p|..], p, ins);
    assert out[i..i + |p + ins|] == p + ins;
    assert out[i..i + |p|] == p;
    assert OccursAt(out, p, i);
  }

  /** Adds `d` to every position in `xs`. */
  function Shift(xs: seq<nat>, d: nat): (r: seq<nat>)
    ensures |r| == |xs| && forall j :: 0 <= j < |xs| ==> r[j] == xs[j] + d
  {
    seq(|xs|, j requires 0 <= j < |xs| => xs[j] + d)
  }

  /**
    The positions at which a replace-all matches `p`, in the order it meets
    them: the scan takes the leftmost occurrence, resumes after it, and so on.
   */
  function Scan(s: string, p: string): seq<nat>
    requires p != []
    decreases |s|
  {
    if |p| <= |s| && s[..|p|] == p then [0] + Shift(Scan(s[|p|..], p), |p|)
    else if s == [] then []
    else Shift(Scan(s[1..], p), 1)
  }

  /** At a match, the scan records position 0 and resumes after the match. */
  lemma ScanHere(s: string, p: string)
    requires p != [] && OccursAt(s, p, 0)
    ensures Scan(s, p) == [0] + Shift(Scan(s[|p|..], p), |p|)
  {
    assert s[..|p|] == p;
  }

  /** Elsewhere, the scan moves on by one character. */
  lemma ScanSkip(s: string, p: string)
    requires p != [] && s != [] && !OccursAt(s, p, 0)
    ensures Scan(s, p) == Shift(Scan(s[1..], p), 1)
  {
  }

  /** What the scan of a replace-all finds in `s`. */
  predicate ScanFacts(s: string, p: string)
    requires p != []
  {
    && |Scan(s, p)| == Count(s, p)
    && (forall j :: 0 <= j < |Scan(s, p)| ==> OccursAt(s, p, Scan(s, p)[j]))
    && (forall j :: 0 < j < |Scan(s, p)| ==> Scan(s, p)[j - 1] + |p| <= Scan(s, p)[j])
  }

  /**
    Every matched position holds `p`, the matches do not overlap, and there
    are `Count(s, p)` of them.
   */
  lemma {:induction false} ScanMatches(s: string, p: string)
    requires p != []
    ensures |Scan(s, p)| == Count(s, p)
    ensures forall j :: 0 <= j < |Scan(s, p)| ==> OccursAt(s, p, Scan(s, p)[j])
    ensures forall j :: 0 < j < |Scan(s, p)| ==> Scan(s, p)[j - 1] + |p| <= Scan(s, p)[j]
    decreases |s|
  {
    if OccursAt(s, p, 0) {
      ScanMatches(s[|p|..], p);
      ScanFactsHere(s, p);
    } else if s != [] {
      ScanMatches(s[1..], p);
      ScanFactsSkip(s, p);
    } else {
      ReplaceAbsent(s, p, p);
    }
  }

  lemma ScanFactsHere(s: string, p: string)
    requires p != [] && OccursAt(s, p, 0) && ScanFacts(s[|p|..], p)
    ensures ScanFacts(s, p)
  {
    ScanHere(s, p);
    ReplaceHere(s, p, p);
    ScanHereOccurs(s, p);
    ScanHereApart(s, p);
  }

  lemma ScanHereOccurs(s: string, p: string)
    requires p != [] && OccursAt(s, p, 0)
    requires forall j :: 0 <= j < |Scan(s[|p|..], p)| ==> OccursAt(s[|p|..], p, Scan(s[|p|..], p)[j])
    ensures forall j :: 0 <= j < |Scan(s, p)| ==> OccursAt(s, p, Scan(s, p)[j])
  {
    var sc := Scan(s, p);
    var sc' := Scan(s[|p|..], p);
    ScanHere(s, p);
    forall j | 0 <= j < |sc| ensures OccursAt(s, p, sc[j]) {
      if j > 0 {
        var k := sc'[j - 1];
        assert OccursAt(s[|p|..], p, k);
        OccursInDrop(s, p, |p|, k);
        assert sc[j] == |p| + k;
      }
    }
  }

  lemma ScanHereApart(s: string, p: string)
    requires p != [] && OccursAt(s, p, 0)
    requires forall j :: 0 < j < |Scan(s[|p|..], p)| ==> Scan(s[|p|..], p)[j - 1] + |p| <= Scan(s[|p|..], p)[j]
    ensures forall j :: 0 < j < |Scan(s, p)| ==> Scan(s, p)[j - 1] + |p| <= Scan(s, p)[j]
  {
    var sc := Scan(s, p);
    var sc' := Scan(s[|p|..], p);
    ScanHere(s, p);
    forall j | 0 < j < |sc| ensures sc[j - 1] + |p| <= sc[j] {
      if j > 1 {
        assert sc'[j - 2] + |p| <= sc'[j - 1];
      }
    }
  }

  lemma ScanFactsSkip(s: string, p: string)
    requires p != [] && s != [] && !OccursAt(s, p, 0) && ScanFacts(s[1..], p)
    ensures ScanFacts(s, p)
  {
    var sc := Scan(s, p);
    var sc' := Scan(s[1..], p);
    ScanSkip(s, p);
    ReplaceSkip(s, p, p);
    forall j | 0 <= j < |sc| ensures OccursAt(s, p, sc[j]) {
      OccursInDrop(s, p, 1, sc'[j]);
    }
  }

  /** Where the j-th match lands once `ins` follows each match. */
  predicate InsertedAt(s: string, p: string, ins: string, j: nat)
    requires p != []
  {
    j < |Scan(s, p)| ==> OccursAt(InsertAfter(s, p, ins), p + ins, Scan(s, p)[j] + j * |ins|)
  }

  /**
    After inserting `ins` behind each match, the j-th match has moved
    `j * |ins|` further on and is followed by `ins`.
   */
  lemma {:induction false} InsertAtScanned(s: string, p: string, ins: string)
    requires p != []
    ensures forall j: nat :: InsertedAt(s, p, ins, j)
    decreases |s|
  {
    if OccursAt(s, p, 0) {
      InsertAtScanned(s[|p|..], p, ins);
      forall j: nat ensures InsertedAt(s, p, ins, j) {
        InsertedHere(s, p, ins, j);
      }
    } else if s != [] {
      InsertAtScanned(s[1..], p, ins);
      forall j: nat ensures InsertedAt(s, p, ins, j) {
        InsertedSkip(s, p, ins, j);
      }
    }
  }

  lemma MulStep(a: nat, n: nat)
    ensures a * n >= 0 && (a + 1) * n == a * n + n
  {
  }

  lemma InsertedHere(s: string, p: string, ins: string, j: nat)
    requires p != [] && OccursAt(s, p, 0)
    requires j > 0 ==> InsertedAt(s[|p|..], p, ins, j - 1)
    ensures InsertedAt(s, p, ins, j)
  {
    var sc := Scan(s, p);
    var sc' := Scan(s[|p|..], p);
    var out := InsertAfter(s, p, ins);
    var out' := InsertAfter(s[|p|..], p, ins);
    ScanHere(s, p);
    ReplaceHere(s, p, p + ins);
    assert out == (p + ins) + out';
    if j < |sc| {
      if j == 0 {
        assert out[..|p + ins|] == p + ins;
      } else {
        var before := (j - 1) * |ins|;
        MulStep(j - 1, |ins|);
        assert OccursAt(out', p + ins, sc'[j - 1] + before);
        OccursInDrop(out, p + ins, |p + ins|, sc'[j - 1] + before);
        assert out[|p + ins|..] == out';
      }
    }
  }

  lemma InsertedSkip(s: string, p: string, ins: string, j: nat)
    requires p != [] && s != [] && !OccursAt(s, p, 0)
    requires InsertedAt(s[1..], p, ins, j)
    ensures InsertedAt(s, p, ins, j)
  {
    var sc := Scan(s, p);
    var sc' := Scan(s[1..], p);
    var out := InsertAfter(s, p, ins);
    var out' := InsertAfter(s[1..], p, ins);
    ScanSkip(s, p);
    ReplaceSkip(s, p, p + ins);
    assert out == [s[0]] + out';
    if j < |sc| {
      MulStep(j, |ins|);
      assert OccursAt(out', p + ins, sc'[j] + j * |ins|);
      OccursInDrop(out, p + ins, 1, sc'[j] + j * |ins|);
      assert out[1..] == out';
    }
  }

  /** No proper suffix of `p` is also a prefix: two occurrences of `p` cannot overlap. */
  predicate NoSelfOverlap(p: string) {
    forall d :: 0 < d < |p| ==> p[d..] != p[..|p| - d]
  }

  /** Two overlapping occurrences of `p` expose a suffix of `p` that is also a prefix. */
  lemma OverlapIsBorder(s: string, p: string, m: nat, k: nat)
    requires OccursAt(s, p, m) && OccursAt(s, p, k)
    ensures m < k < m + |p| ==> p[k - m..] == p[..|p| - (k - m)]
  {
    if m < k < m + |p| {
      var d := k - m;
      assert s[k..m + |p|] == p[d..];
      assert s[k..m + |p|] == p[..|p| - d];
    }
  }

  /** For such a needle, the scan of a replace-all meets every occurrence. */
  lemma {:induction false} EveryOccurrenceScanned(s: string, p: string, k: nat)
    requires p != [] && NoSelfOverlap(p) && OccursAt(s, p, k)
    ensures k in Scan(s, p)
    decreases |s|
  {
    if OccursAt(s, p, 0) {
      OverlapIsBorder(s, p, 0, k);
      if k != 0 {
        OccursInDrop(s, p, |p|, k - |p|);
        EveryOccurrenceScanned(s[|p|..], p, k - |p|);
      }
      ScannedHere(s, p, k);
    } else {
      assert k != 0;
      OccursInDrop(s, p, 1, k - 1);
      EveryOccurrenceScanned(s[1..], p, k - 1);
      ScannedSkip(s, p, k);
    }
  }

  lemma ScannedHere(s: string, p: string, k: nat)
    requires p != [] && OccursAt(s, p, 0)
    requires k == 0 || (k >= |p| && k - |p| in Scan(s[|p|..], p))
    ensures k in Scan(s, p)
  {
    ScanHere(s, p);
    if k == 0 {
      assert Scan(s, p)[0] == 0;
    } else {
      var sc' := Scan(s[|p|..], p);
      var j :| 0 <= j < |sc'| && sc'[j] == k - |p|;
      assert Scan(s, p)[j + 1] == k;
    }
  }

  lemma ScannedSkip(s: string, p: string, k: nat)
    requires p != [] && s != [] && !OccursAt(s, p, 0)
    requires k > 0 && k - 1 in Scan(s[1..], p)
    ensures k in Scan(s, p)
  {
    ScanSkip(s, p);
    var sc' := Scan(s[1..], p);
    var j :| 0 <= j < |sc'| && sc'[j] == k - 1;
    assert Scan(s, p)[j] == k;
  }

  /** Every position at which `p` occurs in `s`, overlapping or not. */
  function Occurrences(s: string, p: string): set<nat> {
    set k: nat | k <= |s| && OccursAt(s, p, k)
  }

  /**
    For a needle that cannot overlap itself, the replace-all makes one
    replacement per occurrence: Count is the number of occurrences.
   */
  lemma CountIsOccurrences(s: string, p: string)
    requires p != [] && NoSelfOverlap(p)
    ensures |Occurrences(s, p)| == Count(s, p)
  {
    var sc := Scan(s, p);
    ScanMatches(s, p);
    forall k | k in Occurrences(s, p) ensures k in sc {
      EveryOccurrenceScanned(s, p, k);
    }
    assert Occurrences(s, p) == Elements(sc);
    IncreasingSetSize(sc);
  }

  /** The positions a sequence holds. */
  function Elements(xs: seq<nat>): set<nat> {
    set x | x in xs
  }

  lemma ElementsCons(xs: seq<nat>)
    requires xs != []
    ensures Elements(xs) == {xs[0]} + Elements(xs[1..])
  {
    forall x | x in Elements(xs) ensures x == xs[0] || x in Elements(xs[1..]) {
      var j :| 0 <= j < |xs| && xs[j] == x;
      if j > 0 {
        assert xs[1..][j - 1] == x;
      }
    }
  }

  /** A strictly increasing sequence has as many distinct elements as entries. */
  lemma {:induction false} IncreasingSetSize(xs: seq<nat>)
    requires forall j :: 0 < j < |xs| ==> xs[j - 1] < xs[j]
    ensures |Elements(xs)| == |xs|
    ensures forall j :: 0 < j < |xs| ==> xs[0] < xs[j]
    decreases |xs|
  {
    if xs != [] {
      var tail := xs[1..];
      IncreasingSetSize(tail);
      forall j | 0 < j < |xs| ensures xs[0] < xs[j] {
        if j > 1 {
          assert xs[j] == tail[j - 1] && xs[1] == tail[0];
        }
      }
      ElementsCons(xs);
      assert xs[0] !in Elements(tail) by {
        forall x | x in Elements(tail) ensures xs[0] < x {
          var j :| 0 <= j < |tail| && tail[j] == x;
          assert xs[j + 1] == x;
        }
      }
    }
  }

  /**
    The occurrence of `p` at `k` is the `j`-th match of the scan, and the
    output holds `p + ins` there, shifted by one insertion per earlier match.
   */
  predicate Followed(s: string, p: string, ins: string, k: nat)
    requires p != []
  {
    exists j :: 0 <= j < |Scan(s, p)| && Scan(s, p)[j] == k &&
      OccursAt(InsertAfter(s, p, ins), p + ins, k + j * |ins|)
  }

  /**
    For a needle that cannot overlap itself, every occurrence is followed by
    the insertion in the output, shifted by one insertion per earlier match.
   */
  lemma EveryOccurrenceFollowed(s: string, p: string, ins: string, k: nat)
    requires p != [] && NoSelfOverlap(p) && OccursAt(s, p, k)
    ensures Followed(s, p, ins, k)
  {
    EveryOccurrenceScanned(s, p, k);
    var j :| 0 <= j < |Scan(s, p)| && Scan(s, p)[j] == k;
    InsertAtScanned(s, p, ins);
    assert InsertedAt(s, p, ins, j);
  }

  /**
    With a non-empty addition, an insertion pass never shortens the text and
    grows it whenever the needle occurs; otherwise the text is unchanged.
   */
  lemma InsertGrows(s: string, p: string, ins: string)
    requires p != [] && ins != []
    ensures |InsertAfter(s, p, ins)| >= |s|
    ensures Contains(s, p) ==> |InsertAfter(s, p, ins)| > |s|
    ensures !Contains(s, p) ==> InsertAfter(s, p, ins) == s
  {
    InsertLength(s, p, ins);
    CountPositive(s, p);
    var c := Count(s, p);
    if c > 0 {
      MulStep(c - 1, |ins|);
    } else {
      ReplaceAbsent(s, p, p + ins);
    }
  }

  /** Contains(s, p) exactly when at least one insertion happens. */
  lemma CountPositive(s: string, p: string)
    requires p != []
    ensures Count(s, p) > 0 <==> Contains(s, p)
  {
    if Contains(s, p) {
      FirstIndex(s, p);
      ReplaceAtFirst(s, p, p, IndexFrom(s, p, 0).value);
    } else {
      ReplaceAbsent(s, p, p);
    }
  }

  /** A second run inserts again wherever the first one did: not idempotent. */
  lemma InsertNotIdempotent(s: string, p: string, ins: string)
    requires p != [] && ins != []
    requires Contains(s, p)
    ensures |InsertAfter(InsertAfter(s, p, ins), p, ins)| > |InsertAfter(s, p, ins)|
    ensures InsertAfter(InsertAfter(s, p, ins), p, ins) != InsertAfter(s, p, ins)
  {
    var once := InsertAfter(s, p, ins);
    FirstIndex(s, p);
    InsertAtFirst(s, p, ins, IndexFrom(s, p, 0).value);
    CountPositive(once, p);
    InsertLength(once, p, ins);
  }
}
