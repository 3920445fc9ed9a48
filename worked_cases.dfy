/**
  Worked cases of build.rb's tag derivation, for a root directory `root`
  that holds no '2' (so the first occurrence of the version string is the
  version directory itself), and for a root that does hold the version text.
  The cases with the `<root>/<v>/.../Dockerfile` layout are instances of
  Build.SegmentOfLayout and Build.SegmentOfVersionLayout; the root that
  holds the version does not fit it, so each gsub step there is a lemma of
  its own about a string equal to the literal.
 */
module WorkedCases {
  import opened Wrappers
  import opened Text
  import opened VersionTag
  import opened Build

  /** The first "2.4" of `root + tail` is at |root| + 1 when `tail` starts with "/2.4". */
  lemma VersionAfterRoot(root: string, tail: string)
    requires '2' !in root && |tail| >= 4 && tail[..4] == "/2.4"
    ensures IndexFrom(root + tail, "2.4", 0) == Some(|root| + 1)
    ensures (root + tail)[|root| + 1..] == tail[1..]
  {
    var path := root + tail;
    assert path[|root| + 1..|root| + 4] == tail[1..4] == "2.4";
    forall k | 0 <= k < |root| + 1 ensures path[k] != '2' {
      if k < |root| { assert path[k] == root[k]; }
    }
    FirstByLead(path, "2.4", |root| + 1);
  }

  lemma NoSlash(s: string)
    requires '/' !in s
    ensures ReplaceAll(s, "/", "-") == s
  {
    AbsentByLead(s, "/");
    ReplaceAbsent(s, "/", "-");
  }

  /** The version directory holds the first occurrence of `v` when `v`'s first character is not in `root`. */
  lemma LayoutFirst(root: string, v: string, sub: string)
    requires v != [] && v[0] !in root && v[0] != '/'
    ensures FirstAt(root + "/" + v + "/" + sub + "/Dockerfile", v, |root| + 1)
  {
    var path := root + "/" + v + "/" + sub + "/Dockerfile";
    assert path[|root| + 1..|root| + 1 + |v|] == v;
    forall k | 0 <= k < |root| + 1 ensures path[k] != v[0] {
      if k < |root| { assert path[k] == root[k]; }
    }
    FirstByLead(path, v, |root| + 1);
  }

  lemma VersionLayoutFirst(root: string, v: string)
    requires v != [] && v[0] !in root && v[0] != '/'
    ensures FirstAt(root + "/" + v + "/Dockerfile", v, |root| + 1)
  {
    var path := root + "/" + v + "/Dockerfile";
    assert path[|root| + 1..|root| + 1 + |v|] == v;
    forall k | 0 <= k < |root| + 1 ensures path[k] != v[0] {
      if k < |root| { assert path[k] == root[k]; }
    }
    FirstByLead(path, v, |root| + 1);
  }

  /** The directories of these cases hold no 'D', so no "/Dockerfile" of their own. */
  lemma HoldsNoFile(s: string)
    requires s == "2.4" || s == "2.4/slim" || s == "2.4/a/b"
    ensures !Contains(s, "/Dockerfile")
  {
    AbsentByChar(s, "/Dockerfile", 1);
  }

  /** A variant directory right under the version directory names the variant. */
  lemma SegmentOfVariantDir(root: string)
    requires '2' !in root
    ensures Contains(root + "/2.4/slim/Dockerfile", "2.4")
    ensures VariantSegment(root + "/2.4/slim/Dockerfile", "2.4") == "slim"
  {
    assert root + "/2.4/slim/Dockerfile" == root + "/" + "2.4" + "/" + "slim" + "/Dockerfile";
    LayoutFirst(root, "2.4", "slim");
    assert "2.4" + "/" + "slim" == "2.4/slim";
    HoldsNoFile("2.4/slim");
    AbsentByLead("slim", "2.4" + "/");
    SegmentOfLayout(root, "2.4", "slim");
    NoSlash("slim");
  }

  lemma NestedSlashesJoined(s: string)
    requires s == "a/b"
    ensures ReplaceAll(s, "/", "-") == "a-b"
  {
    assert s[1..2] == "/" && s[..1] == "a" && s[2..] == "b";
    FirstByLead(s, "/", 1);
    AbsentByLead(s[2..], "/");
    ReplaceOnce(s, "/", "-", 1);
  }

  /** Nested variant directories are joined with '-'. */
  lemma SegmentOfNestedDirs(root: string)
    requires '2' !in root
    ensures Contains(root + "/2.4/a/b/Dockerfile", "2.4")
    ensures VariantSegment(root + "/2.4/a/b/Dockerfile", "2.4") == "a-b"
  {
    assert root + "/2.4/a/b/Dockerfile" == root + "/" + "2.4" + "/" + "a/b" + "/Dockerfile";
    LayoutFirst(root, "2.4", "a/b");
    assert "2.4" + "/" + "a/b" == "2.4/a/b";
    HoldsNoFile("2.4/a/b");
    AbsentByLead("a/b", "2.4" + "/");
    SegmentOfLayout(root, "2.4", "a/b");
    NestedSlashesJoined("a/b");
  }


  /** A Dockerfile directly in the version directory gets the version itself as its segment. */
  lemma SegmentOfVersionDir(root: string)
    requires '2' !in root
    ensures Contains(root + "/2.4/Dockerfile", "2.4")
    ensures VariantSegment(root + "/2.4/Dockerfile", "2.4") == "2.4"
  {
    assert root + "/2.4/Dockerfile" == root + "/" + "2.4" + "/Dockerfile";
    VersionLayoutFirst(root, "2.4");
    HoldsNoFile("2.4");
    SegmentOfVersionLayout(root, "2.4");
    NoSlash("2.4");
  }



  // root/2.4-builds/2.4/slim/Dockerfile

  lemma BuildsFileRemoved(s: string)
    requires s == "2.4-builds/2.4/slim/Dockerfile"
    ensures ReplaceAll(s, "/Dockerfile", "") == "2.4-builds/2.4/slim"
  {
    BuildsFileFirst(s);
    AbsentByLead(s[30..], "/Dockerfile");
    ReplaceOnce(s, "/Dockerfile", "", 19);
    assert s[..19] == "2.4-builds/2.4/slim";
  }

  lemma BuildsFileFirst(s: string)
    requires s == "2.4-builds/2.4/slim/Dockerfile"
    ensures FirstAt(s, "/Dockerfile", 19) && s[30..] == []
  {
    assert s[19..30] == "/Dockerfile";
    forall k | 0 <= k < 19 ensures !OccursAt(s, "/Dockerfile", k) {
      if k == 10 || k == 14 {
        assert s[k + 1] != 'D';
      } else {
        assert s[k..k + 11][0] == s[k] != '/';
      }
    }
  }

  lemma BuildsVersionRemoved(s: string)
    requires s == "2.4-builds/2.4/slim"
    ensures ReplaceAll(s, "2.4/", "") == "2.4-builds/slim"
  {
    BuildsVersionFirst(s);
    AbsentByLead(s[15..], "2.4/");
    ReplaceOnce(s, "2.4/", "", 11);
  }

  lemma BuildsVersionFirst(s: string)
    requires s == "2.4-builds/2.4/slim"
    ensures FirstAt(s, "2.4/", 11) && s[..11] == "2.4-builds/" && s[15..] == "slim"
  {
    assert s[11..15] == "2.4/";
    forall k | 0 <= k < 11 ensures !OccursAt(s, "2.4/", k) {
      if k == 0 {
        assert s[3] != '/';
      } else {
        assert s[k..k + 4][0] == s[k] != '2';
      }
    }
    assert s[..11] == "2.4-builds/" && s[15..] == "slim";
  }

  lemma BuildsSlashJoined(s: string)
    requires s == "2.4-builds/slim"
    ensures ReplaceAll(s, "/", "-") == "2.4-builds-slim"
  {
    assert s[10..11] == "/" && s[..10] == "2.4-builds" && s[11..] == "slim";
    FirstByLead(s, "/", 10);
    AbsentByLead(s[11..], "/");
    ReplaceOnce(s, "/", "-", 10);
  }

  /**
    The segment is taken from the FIRST occurrence of the version text, even
    when that lies in the root directory: under a root ending in
    "/2.4-builds" the slim variant is tagged "2.4-builds-slim", not "slim".
   */
  lemma SegmentWhenRootHoldsVersion(root: string)
    requires '2' !in root
    ensures Contains(root + "/2.4-builds/2.4/slim/Dockerfile", "2.4")
    ensures VariantSegment(root + "/2.4-builds/2.4/slim/Dockerfile", "2.4") == "2.4-builds-slim"
  {
    var path := root + "/2.4-builds/2.4/slim/Dockerfile";
    VersionAfterRoot(root, "/2.4-builds/2.4/slim/Dockerfile");
    var suffix := path[|root| + 1..];
    BuildsFileRemoved(suffix);
    var noFile := ReplaceAll(suffix, "/Dockerfile", "");
    assert "2.4" + "/" == "2.4/";
    BuildsVersionRemoved(noFile);
    BuildsSlashJoined(ReplaceAll(noFile, "2.4/", ""));
  }

  // The version line

  /** `ENV RUBY_VERSION 2.4.1` on its own line gives "2.4.1". */
  lemma VersionFromLine(s: string)
    requires s == "ENV RUBY_VERSION 2.4.1\n"
    ensures ExtractVersion(s) == Some("2.4.1")
  {
    LineVersion(s, "2.4.1", "\n");
  }

  /** A carriage return before the newline stays in the version, and so in the tag. */
  lemma VersionKeepsCarriageReturn(s: string)
    requires s == "ENV RUBY_VERSION 2.4.1\r\n"
    ensures ExtractVersion(s) == Some("2.4.1\r")
  {
    LineVersion(s, "2.4.1\r", "\n");
  }

  /** Trailing blanks at the very end of the text: the engine backtracks to capture the last one. */
  lemma VersionFromTrailingBlanks(s: string)
    requires s == "ENV RUBY_VERSION  "
    ensures ExtractVersion(s) == Some(" ")
  {
    assert s[0..3] == Env && s[4..16] == Key;
    assert SpaceEnd(s, 4) == 4 && SpaceEnd(s, 3) == 4;
    assert SpaceEnd(s, 18) == 18 && SpaceEnd(s, 17) == 18 && SpaceEnd(s, 16) == 18;
    assert LastNonNewline(s, 17, 18) == Some(17);
    assert LineEnd(s, 18) == 18 && LineEnd(s, 17) == 18;
    assert MatchAt(s, 0) == Some((17, 18));
    assert s[17..18] == " ";
  }

  /** Under a root free of markers, `root/2.4/slim/Dockerfile` passes the exclusion filter. */
  lemma SlimPathKept(root: string, rest: string)
    requires !Excluded(root) && rest == "2.4/slim/Dockerfile"
    ensures !Excluded(root + ['/'] + rest)
  {
    AbsentByChar(rest, "onbuild", 1);
    AbsentByLead(rest, "alpine");
    AbsentAcross(root, '/', rest, "onbuild");
    AbsentAcross(root, '/', rest, "alpine");
  }

  lemma SlimPath(root: string)
    requires root != [] && !Excluded(root)
    ensures !Excluded(root + "/2.4/slim/Dockerfile")
    ensures WorkDir(root + "/2.4/slim/Dockerfile") == root + "/2.4/slim"
  {
    var path := root + "/2.4/slim/Dockerfile";
    SlimPathKept(root, "2.4/slim/Dockerfile");
    assert path == root + ['/'] + "2.4/slim/Dockerfile";
    WorkDirOfDockerfile(root + "/2.4/slim");
    assert path == (root + "/2.4/slim") + "/Dockerfile";
  }

  lemma SlimImageName(full: string, segment: string)
    requires full == "2.4.1" && segment == "slim"
    ensures Name + ":" + full + "-" + segment == "callumj/ruby-jemalloc:2.4.1-slim"
  {
  }

  /**
    The full derivation for one Dockerfile: `root/2.4/slim/Dockerfile`
    declaring Ruby 2.4.1 is built and pushed as
    `callumj/ruby-jemalloc:2.4.1-slim` from `root/2.4/slim`.
   */
  lemma SlimImage(root: string, contents: string)
    requires root != [] && '2' !in root && !Excluded(root)
    requires contents == "ENV RUBY_VERSION 2.4.1\n"
    ensures Contains(root + "/2.4/slim/Dockerfile", "2.4")
    ensures var f := Dockerfile(root + "/2.4/slim/Dockerfile", contents);
      var image := "callumj/ruby-jemalloc:2.4.1-slim";
      Globbed("2.4", [f]) &&
      VersionPlan("2.4", [f]) == Plan(
        [Command(root + "/2.4/slim", "docker build -t " + image + " ."),
         Command(root + "/2.4/slim", "docker push " + image)], None)
  {
    var path := root + "/2.4/slim/Dockerfile";
    SlimPath(root);
    SegmentOfVariantDir(root);
    VersionFromLine(contents);
    KeptFileBuildsThenPushes("2.4", Dockerfile(path, contents));
    SlimImageName(ExtractVersion(contents).value, VariantSegment(path, "2.4"));
  }
}
