/**
  Two literal substitutions in a row, as inject_jemalloc.rb applies them:
  when neither needle can begin inside the other, nor inside what the first
  pass inserts, the passes do not interfere. The first pass then neither
  creates nor destroys an occurrence of the second needle, and each pass's
  insertions survive the other.
 */
module Passes {
  import opened Text

  /** `u` and `q` agree on their common length: `q` could begin where `u` begins. */
  predicate Compatible(u: string, q: string) {
    if |u| <= |q| then q[..|u|] == u else u[..|q|] == q
  }

  /** `q` cannot begin at any position of `w`, whatever text follows `w`. */
  predicate NoStartIn(w: string, q: string) {
    forall i :: 0 <= i < |w| ==> !Compatible(w[i..], q)
  }

  /** A block that no `q` can begin in does not start an occurrence of `q`. */
  lemma NoStartAtFront(w: string, x: string, q: string)
    requires w != [] && NoStartIn(w, q)
    ensures !OccursAt(w + x, q, 0)
  {
    assert w[0..] == w;
    assert !Compatible(w, q);
    if |q| <= |w + x| {
      if |w| <= |q| {
        assert (w + x)[..|q|][..|w|] == w;
      } else {
        assert (w + x)[..|q|] == w[..|q|];
      }
    }
  }

  lemma NoStartInTail(w: string, q: string)
    requires w != [] && NoStartIn(w, q)
    ensures NoStartIn(w[1..], q)
  {
    forall i | 0 <= i < |w| - 1 ensures !Compatible(w[1..][i..], q) {
      assert w[1..][i..] == w[i + 1..];
    }
  }

  /** The scan for `q` passes over a block that no `q` can begin in. */
  lemma {:induction false} CountPastBlock(w: string, x: string, q: string)
    requires q != [] && NoStartIn(w, q)
    ensures Count(w + x, q) == Count(x, q)
    decreases |w|
  {
    if w == [] {
      assert w + x == x;
    } else {
      NoStartAtFront(w, x, q);
      ReplaceSkip(w + x, q, q);
      NoStartInTail(w, q);
      CountPastBlock(w[1..], x, q);
      assert (w + x)[1..] == w[1..] + x;
    }
  }

  /** A replace-all copies a block that its needle cannot begin in. */
  lemma {:induction false} ReplacePastBlock(w: string, x: string, p: string, r: string)
    requires p != [] && NoStartIn(w, p)
    ensures ReplaceAll(w + x, p, r) == w + ReplaceAll(x, p, r)
    decreases |w|
  {
    if w == [] {
      assert w + x == x;
    } else {
      NoStartAtFront(w, x, p);
      ReplaceSkip(w + x, p, r);
      NoStartInTail(w, p);
      ReplacePastBlock(w[1..], x, p, r);
      assert (w + x)[1..] == w[1..] + x;
    }
  }

  /** A first character that never appears in `w` cannot begin inside `w`. */
  lemma NoStartByLead(w: string, q: string)
    requires q != [] && q[0] !in w
    ensures NoStartIn(w, q)
  {
    forall i | 0 <= i < |w| ensures !Compatible(w[i..], q) {
      assert w[i..][0] == w[i];
    }
  }

  /**
    Where `w` holds the first character of `q`, the next character already
    differs from the second one of `q`, so `q` cannot begin there either.
   */
  lemma NoStartByTwo(w: string, q: string)
    requires |q| >= 2
    requires forall i :: 0 <= i < |w| && w[i] == q[0] ==> i + 1 < |w| && w[i + 1] != q[1]
    ensures NoStartIn(w, q)
  {
    forall i | 0 <= i < |w| ensures !Compatible(w[i..], q) {
      assert w[i..][0] == w[i];
      if w[i] == q[0] {
        assert w[i..][1] == w[i + 1];
      }
    }
  }

  /** If `u` holds `q` at its front and `p` at `i < |q|`, then `q` and `p` agree from `i` on. */
  lemma CompatibleInside(u: string, q: string, p: string, i: nat)
    requires OccursAt(u, p, i) && i < |q| <= |u|
    ensures u[..|q|] == q ==> Compatible(q[i..], p)
  {
    if u[..|q|] == q {
      if |q| - i <= |p| {
        assert q[i..] == u[i..|q|] == p[..|q| - i];
      } else {
        assert q[i..][..|p|] == u[i..i + |p|] == p;
      }
    }
  }

  /**
    With `p` unable to begin inside `q`, a pass inserting after `p` does not
    make `q` appear at the front of a text that did not start with `q` or `p`.
   */
  lemma NoNewStart(s: string, p: string, ins: string, q: string)
    requires p != [] && q != [] && NoStartIn(q, p)
    requires !OccursAt(s, p, 0) && !OccursAt(s, q, 0)
    ensures !OccursAt(InsertAfter(s, p, ins), q, 0)
  {
    var out := InsertAfter(s, p, ins);
    if Contains(s, p) {
      FirstIndex(s, p);
      var i := IndexFrom(s, p, 0).value;
      InsertAtFirst(s, p, ins, i);
      assert OccursAt(out, p, i) by {
        assert out[i..i + |p|] == (p + ins)[..|p|];
      }
      if i < |q| {
        if |q| <= |out| {
          CompatibleInside(out, q, p, i);
        }
      } else {
        assert out[..i] == s[..i];
        if |q| <= |s| {
          assert out[..|q|] == s[..|q|];
        }
      }
    } else {
      ReplaceAbsent(s, p, p + ins);
    }
  }

  /**
    A pass inserting after `p` keeps the number of `q` matches when neither
    needle can begin inside the other and `q` cannot begin inside `p + ins`.
   */
  lemma {:induction false} InsertKeepsCount(s: string, p: string, ins: string, q: string)
    requires p != [] && q != []
    requires NoStartIn(p, q) && NoStartIn(p + ins, q) && NoStartIn(q, p)
    ensures Count(InsertAfter(s, p, ins), q) == Count(s, q)
    decreases |s|
  {
    if OccursAt(s, p, 0) {
      InsertKeepsCount(s[|p|..], p, ins, q);
      KeepsCountAtNeedle(s, p, ins, q);
    } else if OccursAt(s, q, 0) {
      InsertKeepsCount(s[|q|..], p, ins, q);
      KeepsCountAtOther(s, p, ins, q);
    } else if s != [] {
      InsertKeepsCount(s[1..], p, ins, q);
      KeepsCountElsewhere(s, p, ins, q);
    }
  }

  lemma KeepsCountAtNeedle(s: string, p: string, ins: string, q: string)
    requires p != [] && q != [] && NoStartIn(p, q) && NoStartIn(p + ins, q)
    requires OccursAt(s, p, 0)
    requires Count(InsertAfter(s[|p|..], p, ins), q) == Count(s[|p|..], q)
    ensures Count(InsertAfter(s, p, ins), q) == Count(s, q)
  {
    var rest := s[|p|..];
    ReplaceHere(s, p, p + ins);
    CountPastBlock(p + ins, InsertAfter(rest, p, ins), q);
    assert s == p + rest;
    CountPastBlock(p, rest, q);
  }

  lemma KeepsCountAtOther(s: string, p: string, ins: string, q: string)
    requires p != [] && q != [] && NoStartIn(q, p)
    requires OccursAt(s, q, 0)
    requires Count(InsertAfter(s[|q|..], p, ins), q) == Count(s[|q|..], q)
    ensures Count(InsertAfter(s, p, ins), q) == Count(s, q)
  {
    var rest := s[|q|..];
    assert s == q + rest;
    ReplacePastBlock(q, rest, p, p + ins);
    var out := InsertAfter(s, p, ins);
    assert out == q + InsertAfter(rest, p, ins);
    assert out[..|q|] == q && out[|q|..] == InsertAfter(rest, p, ins);
    ReplaceHere(out, q, q);
    ReplaceHere(s, q, q);
  }

  lemma KeepsCountElsewhere(s: string, p: string, ins: string, q: string)
    requires p != [] && q != [] && NoStartIn(q, p)
    requires s != [] && !OccursAt(s, p, 0) && !OccursAt(s, q, 0)
    requires Count(InsertAfter(s[1..], p, ins), q) == Count(s[1..], q)
    ensures Count(InsertAfter(s, p, ins), q) == Count(s, q)
  {
    var out := InsertAfter(s, p, ins);
    ReplaceSkip(s, p, p + ins);
    NoNewStart(s, p, ins, q);
    ReplaceSkip(out, q, q);
    assert out[1..] == InsertAfter(s[1..], p, ins);
    ReplaceSkip(s, q, q);
  }

  /** Every match of `p` comes out followed by `ins`: the output has as many `p + ins` matches. */
  lemma {:induction false} InsertCountsAdded(s: string, p: string, ins: string)
    requires p != []
    ensures Count(InsertAfter(s, p, ins), p + ins) == Count(s, p)
    decreases |s|
  {
    var out := InsertAfter(s, p, ins);
    if OccursAt(s, p, 0) {
      InsertCountsAdded(s[|p|..], p, ins);
      ReplaceHere(s, p, p + ins);
      assert out[..|p + ins|] == p + ins && out[|p + ins|..] == InsertAfter(s[|p|..], p, ins);
      ReplaceHere(out, p + ins, p + ins);
    } else if s != [] {
      InsertCountsAdded(s[1..], p, ins);
      ReplaceSkip(s, p, p + ins);
      AddedNotAtFront(s, p, ins);
      ReplaceSkip(out, p + ins, p + ins);
      assert out[1..] == InsertAfter(s[1..], p, ins);
    }
  }

  /** Text that does not start with `p` does not start with `p + ins` after the pass. */
  lemma AddedNotAtFront(s: string, p: string, ins: string)
    requires p != [] && !OccursAt(s, p, 0)
    ensures !OccursAt(InsertAfter(s, p, ins), p + ins, 0)
  {
    var out := InsertAfter(s, p, ins);
    if |p| <= |s| {
      InsertKeepsPrefix(s, p, ins, |p|);
      if |p + ins| <= |out| {
        assert out[..|p + ins|][..|p|] == out[..|p|];
      }
    } else {
      assert !Contains(s, p);
      ReplaceAbsent(s, p, p + ins);
    }
  }

  /**
    Two passes, inserting `a1` after `p1` and then `a2` after `p2`, that do
    not interfere: the first pass keeps every `p2` match, and the output
    holds `p1 + a1` and `p2 + a2` as often as the input held `p1` and `p2`.
   */
  lemma TwoPassesCount(s: string, p1: string, a1: string, p2: string, a2: string)
    requires p1 != [] && p2 != []
    requires NoStartIn(p1, p2) && NoStartIn(p1 + a1, p2) && NoStartIn(p2, p1)
    requires NoStartIn(p2, p1 + a1) && NoStartIn(p2 + a2, p1 + a1)
    ensures Count(InsertAfter(s, p1, a1), p2) == Count(s, p2)
    ensures Count(InsertAfter(InsertAfter(s, p1, a1), p2, a2), p1 + a1) == Count(s, p1)
    ensures Count(InsertAfter(InsertAfter(s, p1, a1), p2, a2), p2 + a2) == Count(s, p2)
  {
    var mid := InsertAfter(s, p1, a1);
    InsertKeepsCount(s, p1, a1, p2);
    InsertCountsAdded(s, p1, a1);
    InsertKeepsCount(mid, p2, a2, p1 + a1);
    InsertCountsAdded(mid, p2, a2);
  }
}
