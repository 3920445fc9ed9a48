/**
  inject_jemalloc.rb: every Dockerfile found under the repository is read,
  rewritten so that the apt-get line also installs libjemalloc-dev and the
  ./configure call also passes --with-jemalloc, and written back with
  IO#puts. The file system is a map from path to contents; the glob result
  is an input.
 */
module Inject {
  import opened Text
  import opened Passes

  /** The literal matched on line 6, and what the replacement adds after it. */
  const AptNeedle := "apt-get install -y --no-install-recommends"
  const AptAddition := " libjemalloc-dev"

  /** The literal matched on line 7 (the regex escapes '.' and '/'). */
  const ConfigureNeedle := "./configure"
  const ConfigureAddition := " --with-jemalloc"

  /** The text after the first substitution only. */
  function AfterApt(text: string): string {
    InsertAfter(text, AptNeedle, AptAddition)
  }

  /** Both substitutions, in the order the script applies them. */
  function Rewrite(text: string): string {
    InsertAfter(AfterApt(text), ConfigureNeedle, ConfigureAddition)
  }

  /**
    What IO#puts writes for a string: the string, then a newline unless it
    already ends with one. The empty string is written as a lone newline.
   */
  function Puts(text: string): (w: string)
    ensures |w| > 0 && w[|w| - 1] == '\n'
    ensures |text| <= |w| <= |text| + 1 && w[..|text|] == text
    ensures text != [] && text[|text| - 1] == '\n' ==> w == text
  {
    if text != [] && text[|text| - 1] == '\n' then text else text + "\n"
  }

  /** Writing what puts wrote, again with puts, adds nothing. */
  lemma PutsIdempotent(text: string)
    ensures Puts(Puts(text)) == Puts(text)
  {
  }

  /** Text that mentions neither needle is left exactly as it was. */
  lemma RewriteUnchangedIff(text: string)
    ensures Rewrite(text) == text <==>
      !Contains(text, AptNeedle) && !Contains(text, ConfigureNeedle)
  {
    TwoInsertionsUnchangedIff(text, AptNeedle, AptAddition, ConfigureNeedle, ConfigureAddition);
  }

  /** Two insertion passes with non-empty additions change exactly the texts holding a needle. */
  lemma TwoInsertionsUnchangedIff(text: string, p1: string, a1: string, p2: string, a2: string)
    requires p1 != [] && a1 != [] && p2 != [] && a2 != []
    ensures InsertAfter(InsertAfter(text, p1, a1), p2, a2) == text <==>
      !Contains(text, p1) && !Contains(text, p2)
  {
    var mid := InsertAfter(text, p1, a1);
    InsertGrows(text, p1, a1);
    InsertGrows(mid, p2, a2);
  }

  /** Deleting the added text after each needle recovers the original. */
  lemma RewriteRecovers(text: string)
    ensures Strip(Strip(Rewrite(text), ConfigureNeedle, ConfigureAddition), AptNeedle, AptAddition) == text
  {
    StripInsert(AfterApt(text), ConfigureNeedle, ConfigureAddition);
    StripInsert(text, AptNeedle, AptAddition);
  }

  /**
    The rewrite only grows the text: by the length of the addition for every
    occurrence of either needle in the input.
   */
  lemma RewriteLength(text: string)
    ensures |Rewrite(text)| ==
      |text| + |Occurrences(text, AptNeedle)| * |AptAddition|
             + |Occurrences(text, ConfigureNeedle)| * |ConfigureAddition|
  {
    RewriteMarksEveryNeedle(text);
    SumOfPasses(text, AptNeedle, AptAddition, ConfigureNeedle, ConfigureAddition);
    AptNoSelfOverlap(AptNeedle);
    ConfigureNoSelfOverlap(ConfigureNeedle);
    CountIsOccurrences(text, AptNeedle);
    CountIsOccurrences(text, ConfigureNeedle);
  }

  /** Two insertion passes add each addition once per match of its pass. */
  lemma SumOfPasses(text: string, p1: string, a1: string, p2: string, a2: string)
    requires p1 != [] && p2 != []
    ensures |InsertAfter(InsertAfter(text, p1, a1), p2, a2)| ==
      |text| + Count(text, p1) * |a1| + Count(InsertAfter(text, p1, a1), p2) * |a2|
  {
    InsertLength(text, p1, a1);
    InsertLength(InsertAfter(text, p1, a1), p2, a2);
  }

  /**
    The two substitutions do not interfere. The first neither creates nor
    destroys a ./configure match, and the output holds each needle followed
    by its addition exactly as often as the input held that needle.
   */
  lemma RewriteMarksEveryNeedle(text: string)
    ensures Count(AfterApt(text), ConfigureNeedle) == Count(text, ConfigureNeedle)
    ensures Count(Rewrite(text), AptNeedle + AptAddition) == |Occurrences(text, AptNeedle)|
    ensures Count(Rewrite(text), ConfigureNeedle + ConfigureAddition) == |Occurrences(text, ConfigureNeedle)|
  {
    NeedlesDoNotInterfere(AptNeedle, AptAddition, ConfigureNeedle, ConfigureAddition);
    TwoPassesCount(text, AptNeedle, AptAddition, ConfigureNeedle, ConfigureAddition);
    AptNoSelfOverlap(AptNeedle);
    ConfigureNoSelfOverlap(ConfigureNeedle);
    CountIsOccurrences(text, AptNeedle);
    CountIsOccurrences(text, ConfigureNeedle);
  }

  /**
    Neither needle can begin inside the other or inside the other's line
    after the rewrite: '.' never occurs in the apt-get line, 'a' never in
    ./configure, and the one 'a' of " --with-jemalloc" is followed by 'l'.
   */
  lemma NeedlesDoNotInterfere(p1: string, a1: string, p2: string, a2: string)
    requires p1 == AptNeedle && a1 == AptAddition && p2 == ConfigureNeedle && a2 == ConfigureAddition
    ensures p1 != [] && p2 != []
    ensures NoStartIn(p1, p2) && NoStartIn(p1 + a1, p2) && NoStartIn(p2, p1)
    ensures NoStartIn(p2, p1 + a1) && NoStartIn(p2 + a2, p1 + a1)
  {
    AptLineFacts(p1, p1 + a1);
    ConfigureFacts(p2, p2 + a2);
    NoStartByLead(p1, p2);
    NoStartByLead(p1 + a1, p2);
    NoStartByLead(p2, p1);
    NoStartByLead(p2, p1 + a1);
    NoStartByTwo(p2 + a2, p1 + a1);
  }

  lemma AptLineFacts(p: string, line: string)
    requires p == AptNeedle && line == AptNeedle + AptAddition
    ensures p != [] && p[0] == 'a' && |line| >= 2 && line[0] == 'a' && line[1] == 'p'
    ensures '.' !in p && '.' !in line
  {
  }

  lemma ConfigureFacts(p: string, line: string)
    requires p == ConfigureNeedle && line == ConfigureNeedle + ConfigureAddition
    ensures p != [] && p[0] == '.' && 'a' !in p
    ensures forall i :: 0 <= i < |line| && line[i] == 'a' ==> i + 1 < |line| && line[i + 1] == 'l'
  {
  }

  /** '.' starts ./configure and appears nowhere else in it. */
  lemma ConfigureNoSelfOverlap(p: string)
    requires p == ConfigureNeedle
    ensures NoSelfOverlap(p)
  {
    forall d | 0 < d < |p| ensures p[d..] != p[..|p| - d] {
      assert p[d..][0] == p[d] != '.' == p[..|p| - d][0];
    }
  }

  /** The apt-get needle holds 'a' only at 0, 12 and 28, each time followed by 'p' or 'l'. */
  lemma AptLeads(p: string, d: nat)
    requires p == AptNeedle && 0 < d < |p| && p[d] == 'a'
    ensures d + 1 < |p| && p[d + 1] == 'l'
  {
  }

  lemma AptStart(p: string)
    requires p == AptNeedle
    ensures |p| == 42 && p[0] == 'a' && p[1] == 'p'
  {
  }

  /** No suffix of the apt-get needle is a prefix: later 'a's are followed by 'l', not 'p'. */
  lemma AptNoSelfOverlap(p: string)
    requires p == AptNeedle
    ensures NoSelfOverlap(p)
  {
    AptStart(p);
    forall d | 0 < d < |p| ensures p[d..] != p[..|p| - d] {
      if p[d] == 'a' {
        AptLeads(p, d);
        assert p[d..][1] != p[..|p| - d][1];
      } else {
        assert p[d..][0] != p[..|p| - d][0];
      }
    }
  }

  /**
    Every occurrence of either needle, wherever it sits, gains its addition:
    neither needle can overlap itself, so the left-to-right scan meets them all.
   */
  lemma EveryOccurrenceGainsAddition(text: string, k: nat)
    ensures OccursAt(text, AptNeedle, k) ==> Followed(text, AptNeedle, AptAddition, k)
    ensures OccursAt(AfterApt(text), ConfigureNeedle, k) ==>
      Followed(AfterApt(text), ConfigureNeedle, ConfigureAddition, k)
  {
    AptNoSelfOverlap(AptNeedle);
    ConfigureNoSelfOverlap(ConfigureNeedle);
    if OccursAt(text, AptNeedle, k) {
      EveryOccurrenceFollowed(text, AptNeedle, AptAddition, k);
    }
    if OccursAt(AfterApt(text), ConfigureNeedle, k) {
      EveryOccurrenceFollowed(AfterApt(text), ConfigureNeedle, ConfigureAddition, k);
    }
  }

  /** An occurrence of `p + x` is an occurrence of `p`. */
  lemma OccursPrefix(s: string, p: string, x: string, k: nat)
    requires OccursAt(s, p + x, k)
    ensures OccursAt(s, p, k)
  {
    assert s[k..k + |p|] == (p + x)[..|p|];
  }

  /**
    The needles survive the rewrite, each now followed by its addition, so
    the output still matches whatever the input matched.
   */
  lemma RewriteKeepsNeedles(text: string)
    ensures Contains(text, AptNeedle) ==> Contains(Rewrite(text), AptNeedle + AptAddition)
    ensures Contains(text, ConfigureNeedle) ==> Contains(Rewrite(text), ConfigureNeedle + ConfigureAddition)
  {
    NeedlesApart(AptNeedle, AptAddition, ConfigureNeedle);
    TwoInsertionsKeepNeedles(text, AptNeedle, AptAddition, ConfigureNeedle, ConfigureAddition);
  }

  /** Neither needle can start inside the other, nor inside the first addition. */
  lemma NeedlesApart(p1: string, a1: string, p2: string)
    requires p1 == AptNeedle && a1 == AptAddition && p2 == ConfigureNeedle
    ensures p1 != [] && p2 != [] && p1[0] !in p2 && p2[0] !in p1 + a1
  {
    assert p1[0] == 'a' && p2[0] == '.';
  }

  lemma TwoInsertionsKeepNeedles(text: string, p1: string, a1: string, p2: string, a2: string)
    requires p1 != [] && p2 != [] && p1[0] !in p2 && p2[0] !in p1 + a1
    ensures Contains(text, p1) ==> Contains(InsertAfter(InsertAfter(text, p1, a1), p2, a2), p1 + a1)
    ensures Contains(text, p2) ==> Contains(InsertAfter(InsertAfter(text, p1, a1), p2, a2), p2 + a2)
  {
    var mid := InsertAfter(text, p1, a1);
    var out := InsertAfter(mid, p2, a2);
    if Contains(text, p1) {
      var i := IndexFrom(text, p1, 0).value;
      FirstIndex(text, p1);
      InsertAtFirst(text, p1, a1, i);
      ReplaceKeepsOccurrence(mid, p2, p2 + a2, p1 + a1, i);
    }
    if Contains(text, p2) {
      var k := IndexFrom(text, p2, 0).value;
      assert p2[0] !in p1;
      ReplaceKeepsOccurrence(text, p1, p1 + a1, p2, k);
      var i := IndexFrom(mid, p2, 0).value;
      FirstIndex(mid, p2);
      InsertAtFirst(mid, p2, a2, i);
      ContainsIff(out, p2 + a2);
    }
  }

  /**
    Running the script twice changes a Dockerfile that mentions either
    needle a second time: the rewrite is not idempotent.
   */
  lemma RewriteNotIdempotent(text: string)
    requires Contains(text, AptNeedle) || Contains(text, ConfigureNeedle)
    ensures Rewrite(Rewrite(text)) != Rewrite(text)
  {
    var out := Rewrite(text);
    RewriteKeepsNeedles(text);
    if Contains(text, AptNeedle) {
      var k := IndexFrom(out, AptNeedle + AptAddition, 0).value;
      OccursPrefix(out, AptNeedle, AptAddition, k);
      ContainsIff(out, AptNeedle);
    } else {
      var k := IndexFrom(out, ConfigureNeedle + ConfigureAddition, 0).value;
      OccursPrefix(out, ConfigureNeedle, ConfigureAddition, k);
      ContainsIff(out, ConfigureNeedle);
    }
    RewriteUnchangedIff(out);
  }

  /** What the script leaves in a Dockerfile that held `text`. */
  function Written(text: string): string {
    Puts(Rewrite(text))
  }

  /** A Dockerfile without either needle is still rewritten, and only gains a final newline. */
  lemma WrittenWithoutNeedles(text: string)
    requires !Contains(text, AptNeedle) && !Contains(text, ConfigureNeedle)
    ensures Written(text) == Puts(text)
    ensures |Written(text)| <= |text| + 1 && Written(text)[..|text|] == text
  {
    RewriteUnchangedIff(text);
  }

  /** Every path the glob returned names an existing file. */
  predicate Found(files: map<string, string>, found: seq<string>) {
    forall i :: 0 <= i < |found| ==> found[i] in files
  }

  /** No path is listed twice, as with the result of a glob. */
  predicate Distinct(found: seq<string>) {
    forall i, j :: 0 <= i < j < |found| ==> found[i] != found[j]
  }

  /** The files after the script has rewritten the found paths in order. */
  function PatchAll(files: map<string, string>, found: seq<string>): (r: map<string, string>)
    requires Found(files, found)
    ensures r.Keys == files.Keys
    decreases |found|
  {
    if found == [] then files
    else
      var before := PatchAll(files, found[..|found| - 1]);
      var path := found[|found| - 1];
      before[path := Written(before[path])]
  }

  /**
    With the distinct paths a glob yields, every found file holds the
    rewritten text of its old contents as written by puts, whether or not a
    substitution matched, and every other file is untouched.
   */
  lemma {:induction false} PatchAllEffect(files: map<string, string>, found: seq<string>)
    requires Found(files, found)
    requires Distinct(found)
    ensures forall path :: path in files ==>
      PatchAll(files, found)[path] ==
        (if path in found then Written(files[path]) else files[path])
    decreases |found|
  {
    if found != [] {
      var init := found[..|found| - 1];
      var last := found[|found| - 1];
      assert found == init + [last];
      assert Distinct(init) && last !in init by {
        forall i | 0 <= i < |init| ensures init[i] == found[i] {
        }
      }
      PatchAllEffect(files, init);
      var before := PatchAll(files, init);
      assert before[last] == files[last];
      assert PatchAll(files, found) == before[last := Written(before[last])];
      forall path | path in files
        ensures PatchAll(files, found)[path] ==
          (if path in found then Written(files[path]) else files[path])
      {
        assert path in found <==> path == last || path in init;
      }
    }
  }

  /** Rewrite is the two gsub! calls of the loop body, one after the other. */
  lemma RewriteInTwoSteps(text: string)
    ensures ReplaceAll(ReplaceAll(text, AptNeedle, AptNeedle + AptAddition),
                       ConfigureNeedle, ConfigureNeedle + ConfigureAddition) == Rewrite(text)
  {
  }

  /** Handling one more found path updates that path only. */
  lemma PatchAllNext(files: map<string, string>, found: seq<string>, i: nat)
    requires Found(files, found) && i < |found|
    ensures Found(files, found[..i]) && Found(files, found[..i + 1])
    ensures var before := PatchAll(files, found[..i]);
      PatchAll(files, found[..i + 1]) == before[found[i] := Written(before[found[i]])]
  {
    assert found[..i + 1][..i] == found[..i];
  }

  /**
    The script's loop: read each found file, apply the two substitutions to
    the local text in turn, and write the text back with puts.
   */
  method Patch(files: map<string, string>, found: seq<string>) returns (written: map<string, string>)
    requires Found(files, found)
    ensures written == PatchAll(files, found)
  {
    written := files;
    var i := 0;
    while i < |found|
      invariant i <= |found|
      invariant Found(files, found[..i])
      invariant written == PatchAll(files, found[..i])
    {
      var path := found[i];
      var text := written[path];
      ghost var read := text;
      text := ReplaceAll(text, AptNeedle, AptNeedle + AptAddition);
      text := ReplaceAll(text, ConfigureNeedle, ConfigureNeedle + ConfigureAddition);
      RewriteInTwoSteps(read);
      PatchAllNext(files, found, i);
      written := written[path := Puts(text)];
      i := i + 1;
    }
    assert found[..i] == found;
  }
}
