/**
  The pattern build.rb uses to find the Ruby version in a Dockerfile,
  /ENV\s+RUBY_VERSION\s+(.+)/, as a hand-written matcher. `\s` is Ruby's
  ASCII whitespace class and `.` is any character except a newline. The
  matcher reproduces what a backtracking engine reports: the leftmost start
  position that matches, greedy `\s+`, and the longest `.+` capture.
 */
module VersionTag {
  import opened Wrappers
  import opened Text

  const Env := "ENV"
  const Key := "RUBY_VERSION"

  /** Ruby's `\s`: space, tab, line feed, vertical tab, form feed, carriage return. */
  predicate IsSpace(c: char) {
    c == ' ' || c == '\t' || c == '\n' || c == 11 as char || c == 12 as char || c == '\r'
  }

  /** End of the longest run of whitespace starting at `i`. */
  function SpaceEnd(s: string, i: nat): (e: nat)
    requires i <= |s|
    decreases |s| - i
    ensures i <= e <= |s|
    ensures forall k :: i <= k < e ==> IsSpace(s[k])
    ensures e == |s| || !IsSpace(s[e])
  {
    if i < |s| && IsSpace(s[i]) then SpaceEnd(s, i + 1) else i
  }

  /** End of the longest run of non-newline characters starting at `i`. */
  function LineEnd(s: string, i: nat): (e: nat)
    requires i <= |s|
    decreases |s| - i
    ensures i <= e <= |s|
    ensures forall k :: i <= k < e ==> s[k] != '\n'
    ensures e == |s| || s[e] == '\n'
  {
    if i < |s| && s[i] != '\n' then LineEnd(s, i + 1) else i
  }

  /** Largest index in [lo, hi) that does not hold a newline. */
  function LastNonNewline(s: string, lo: nat, hi: nat): (r: Option<nat>)
    requires lo <= hi <= |s|
    decreases hi - lo
    ensures r.Some? ==> lo <= r.value < hi && s[r.value] != '\n'
    ensures r.Some? ==> forall k :: r.value < k < hi ==> s[k] == '\n'
    ensures r.None? ==> forall k :: lo <= k < hi ==> s[k] == '\n'
  {
    if hi == lo then None
    else if s[hi - 1] != '\n' then Some(hi - 1)
    else LastNonNewline(s, lo, hi - 1)
  }

  /**
    One way the pattern matches at start `i`: `ENV` at `i`, whitespace on
    [i+3, a), `RUBY_VERSION` at `a`, whitespace on [a+12, c), and the
    capture group on [c, d).
   */
  predicate Parse(s: string, i: nat, a: nat, c: nat, d: nat) {
    i + |Env| < a && a + |Key| < c && c < d <= |s|
    && OccursAt(s, Env, i) && OccursAt(s, Key, a)
    && (forall k :: i + |Env| <= k < a ==> IsSpace(s[k]))
    && (forall k :: a + |Key| <= k < c ==> IsSpace(s[k]))
    && (forall k :: c <= k < d ==> s[k] != '\n')
  }

  /**
    The capture span the engine reports for a match starting at `i`, if
    any. The second `\s+` is greedy; when the whitespace run reaches the end
    of the text, the engine gives back characters until `.` can match one,
    i.e. it starts the capture at the last non-newline character of the run.
   */
  function MatchAt(s: string, i: nat): (m: Option<(nat, nat)>)
    ensures m.Some? ==> i + |Env| + |Key| + 2 <= m.value.0 < m.value.1 <= |s|
  {
    if !OccursAt(s, Env, i) then None
    else
      var a := SpaceEnd(s, i + |Env|);
      if a == i + |Env| || !OccursAt(s, Key, a) then None
      else
        var b := a + |Key|;
        var e := SpaceEnd(s, b);
        if e == b then None
        else if e < |s| then Some((e, LineEnd(s, e)))
        else match LastNonNewline(s, b + 1, e)
          case None => None
          case Some(j) => Some((j, LineEnd(s, j)))
  }

  /**
    MatchAt agrees with the backtracking semantics: it reports a parse when
    one exists, and among all parses at `i` it picks the one with the longest
    `\s+` and then the longest capture.
   */
  lemma MatchAtIsPreferredParse(s: string, i: nat)
    ensures MatchAt(s, i).Some? ==>
      Parse(s, i, SpaceEnd(s, i + |Env|), MatchAt(s, i).value.0, MatchAt(s, i).value.1)
    ensures forall a: nat, c: nat, d: nat :: Parse(s, i, a, c, d) ==>
      MatchAt(s, i).Some? && (c < MatchAt(s, i).value.0 || (c == MatchAt(s, i).value.0 && d <= MatchAt(s, i).value.1))
  {
    forall a: nat, c: nat, d: nat | Parse(s, i, a, c, d)
      ensures MatchAt(s, i).Some? && (c < MatchAt(s, i).value.0 || (c == MatchAt(s, i).value.0 && d <= MatchAt(s, i).value.1))
    {
      ParseIsDominated(s, i, a, c, d);
    }
    if MatchAt(s, i).Some? {
      MatchAtParses(s, i);
    }
  }

  /** A span MatchAt reports is a parse, with the first `\s+` run taken whole. */
  lemma MatchAtParses(s: string, i: nat)
    requires MatchAt(s, i).Some?
    ensures Parse(s, i, SpaceEnd(s, i + |Env|), MatchAt(s, i).value.0, MatchAt(s, i).value.1)
    ensures MatchAt(s, i).value.1 == |s| || s[MatchAt(s, i).value.1] == '\n'
  {
    var a := SpaceEnd(s, i + |Env|);
    var b := a + |Key|;
    var e := SpaceEnd(s, b);
    var (c, d) := MatchAt(s, i).value;
    assert forall k :: b <= k < c ==> IsSpace(s[k]);
  }

  lemma ParseIsDominated(s: string, i: nat, a: nat, c: nat, d: nat)
    requires Parse(s, i, a, c, d)
    ensures MatchAt(s, i).Some?
    ensures c < MatchAt(s, i).value.0 || (c == MatchAt(s, i).value.0 && d <= MatchAt(s, i).value.1)
  {
    var a0 := SpaceEnd(s, i + |Env|);
    assert s[a] == 'R' by { assert s[a..a + |Key|][0] == s[a]; }
    assert !IsSpace(s[a]);
    assert a == a0;
    var b := a + |Key|;
    var e := SpaceEnd(s, b);
    assert c <= e;
    if e < |s| {
      assert !IsSpace(s[e]);
    } else {
      assert s[c] != '\n';
      var j := LastNonNewline(s, b + 1, e);
      assert j.Some?;
      assert c <= j.value;
    }
  }

  /** A match found by scanning start positions from `i` onwards. */
  datatype Match = Match(start: nat, capStart: nat, capEnd: nat)

  /** Leftmost start position at or after `i` where the pattern matches. */
  function FirstMatch(s: string, i: nat): (r: Option<Match>)
    requires i <= |s|
    decreases |s| - i
    ensures r.Some? ==> i <= r.value.start && MatchAt(s, r.value.start) == Some((r.value.capStart, r.value.capEnd))
    ensures r.Some? ==> forall k :: i <= k < r.value.start ==> MatchAt(s, k).None?
    ensures r.None? ==> forall k :: i <= k ==> MatchAt(s, k).None?
  {
    match MatchAt(s, i)
    case Some((c, d)) => Some(Match(i, c, d))
    case None =>
      if i == |s| then
        NoMatchPastEnd(s);
        None
      else FirstMatch(s, i + 1)
  }

  /** No match starts at or after the end of the text. */
  lemma NoMatchPastEnd(s: string)
    ensures forall k :: |s| <= k ==> MatchAt(s, k).None?
  {
    forall k | |s| <= k ensures MatchAt(s, k).None? {
      assert !OccursAt(s, Env, k);
    }
  }

  /**
    `TAG_TO_FIND.match(contents)[1]`: the first capture of the leftmost match,
    or None where Ruby's match returns nil.
   */
  function ExtractVersion(s: string): Option<string> {
    match FirstMatch(s, 0)
    case None => None
    case Some(m) => Some(s[m.capStart..m.capEnd])
  }

  /**
    The extracted version is non-empty, holds no newline, and runs to the
    end of its line (any trailing spaces or carriage return are kept).
   */
  lemma VersionShape(s: string)
    requires ExtractVersion(s).Some?
    ensures var v := ExtractVersion(s).value;
      v != [] && '\n' !in v &&
      exists c: nat :: OccursAt(s, v, c) && (c + |v| == |s| || s[c + |v|] == '\n')
  {
    var m := FirstMatch(s, 0).value;
    MatchAtParses(s, m.start);
    LineShape(s, m.capStart, m.capEnd);
  }

  /** A non-empty span with no newline that ends at a line end is a whole rest of line. */
  lemma LineShape(s: string, c: nat, d: nat)
    requires c < d <= |s|
    requires forall k :: c <= k < d ==> s[k] != '\n'
    requires d == |s| || s[d] == '\n'
    ensures var v := s[c..d];
      v != [] && '\n' !in v && OccursAt(s, v, c) && (c + |v| == |s| || s[c + |v|] == '\n')
  {
    var v := s[c..d];
    forall k | 0 <= k < |v| ensures v[k] != '\n' {
      assert v[k] == s[c + k];
    }
  }

  /** LineEnd is the only end of line its contract allows. */
  lemma LineEndAt(s: string, i: nat, e: nat)
    requires i <= e <= |s|
    requires forall k :: i <= k < e ==> s[k] != '\n'
    requires e == |s| || s[e] == '\n'
    ensures LineEnd(s, i) == e
  {
  }

  /**
    A text that starts with `ENV RUBY_VERSION ` followed by a version that
    does not start with whitespace and runs to the end of its line yields
    exactly that version.
   */
  lemma LineVersion(s: string, v: string, tail: string)
    requires s == Env + " " + Key + " " + v + tail
    requires v != [] && !IsSpace(v[0]) && '\n' !in v
    requires tail == [] || tail[0] == '\n'
    ensures ExtractVersion(s) == Some(v)
  {
    var c := |Env| + |Key| + 2;
    assert s[..3] == Env && s[3] == ' ';
    assert s[4..16] == Key && s[16] == ' ';
    assert s[c..c + |v|] == v;
    assert OccursAt(s, Env, 0) && SpaceEnd(s, 4) == 4 && SpaceEnd(s, 3) == 4;
    assert OccursAt(s, Key, 4) && SpaceEnd(s, c) == c && SpaceEnd(s, 16) == c;
    forall k | c <= k < c + |v| ensures s[k] != '\n' {
      assert s[k] == v[k - c];
    }
    assert c + |v| == |s| || s[c + |v|] == '\n';
    LineEndAt(s, c, c + |v|);
    assert MatchAt(s, 0) == Some((c, c + |v|));
  }

  /** Start `i` with capture [c, d) is preferred over start `i2` with capture [c2, d2). */
  predicate Preferred(i: nat, c: nat, d: nat, i2: nat, c2: nat, d2: nat) {
    i < i2 || (i == i2 && (c2 < c || (c2 == c && d2 <= d)))
  }

  /**
    ExtractVersion is the capture of the match a backtracking engine reports:
    nil when no parse exists anywhere, otherwise the capture of the leftmost,
    then greediest, parse.
   */
  lemma ExtractVersionIsLeftmostParse(s: string)
    ensures ExtractVersion(s).None? ==> forall i: nat, a: nat, c: nat, d: nat :: !Parse(s, i, a, c, d)
    ensures ExtractVersion(s).Some? ==>
      exists i: nat, a: nat, c: nat, d: nat :: Parse(s, i, a, c, d) && ExtractVersion(s).value == s[c..d] &&
        forall i2: nat, a2: nat, c2: nat, d2: nat :: Parse(s, i2, a2, c2, d2) ==> Preferred(i, c, d, i2, c2, d2)
  {
    forall i: nat, a: nat, c: nat, d: nat | Parse(s, i, a, c, d)
      ensures MatchAt(s, i).Some?
      ensures c < MatchAt(s, i).value.0 || (c == MatchAt(s, i).value.0 && d <= MatchAt(s, i).value.1)
    {
      ParseIsDominated(s, i, a, c, d);
    }
    if ExtractVersion(s).Some? {
      var m := FirstMatch(s, 0).value;
      MatchAtParses(s, m.start);
      var a := SpaceEnd(s, m.start + |Env|);
      assert Parse(s, m.start, a, m.capStart, m.capEnd);
      forall i2: nat, a2: nat, c2: nat, d2: nat | Parse(s, i2, a2, c2, d2)
        ensures Preferred(m.start, m.capStart, m.capEnd, i2, c2, d2)
      {
        ParseIsDominated(s, i2, a2, c2, d2);
      }
    }
  }
}
