/**
 Guessing a module name and version from a jar file name such as
 `google-cloud-storage-2.4.1.jar`: the name is everything before the last dash
 with dashes turned into dots, the version is what lies between the last dash
 and the last `.jar`.
 */
module Inference {
  import opened Wrappers
  import opened JavaString

  /** The marker whose last occurrence ends the version. */
  const JarExt: string := ".jar"

  /** The three warnings the inference can log; nothing is thrown. */
  datatype Warning =
    | NoDash        // no dash after the first character
    | DashAfterDot  // the last dash is not followed by a `.jar`
    | NoDot         // no `.jar` at all (never produced, see NoDotNeverReported)

  datatype Guess =
    | Inferred(name: string, version: string)
    | Unparsed(warning: Warning)

  function LastDash(jarName: string): int {
    LastIndexOfChar(jarName, '-')
  }

  function LastDot(jarName: string): int {
    LastIndexOf(jarName, JarExt)
  }

  /**
   The branch structure of `module(jarName, conf)`. On success the jar name is
   the name segment, a dash, the version and a tail that starts with the last
   `.jar`; neither the guessed name nor the version contains a dash.
   */
  function InferModule(jarName: string): (r: Guess)
    ensures r.Inferred? ==>
      && |r.name| + 1 + |r.version| + |JarExt| <= |jarName|
      && jarName[|r.name|] == '-'
      && jarName[|r.name| + 1..|r.name| + 1 + |r.version|] == r.version
      && OccursAt(jarName, JarExt, |r.name| + 1 + |r.version|)
      && '-' !in r.name
      && '-' !in r.version
    ensures r != Unparsed(NoDot)
  {
    var lastDash := LastDash(jarName);
    var lastDot := LastDot(jarName);
    if lastDash > 0 && lastDot > 0 && lastDot > lastDash then
      ReplaceCharRemoves(jarName[..lastDash], '-', '.');
      Inferred(ReplaceChar(jarName[..lastDash], '-', '.'), jarName[lastDash + 1..lastDot])
    else if lastDash < 1 then
      Unparsed(NoDash)
    else if lastDot < lastDash then
      Unparsed(DashAfterDot)
    else
      Unparsed(NoDot)
  }

  /**
   `jarName` splits as `prefix + "-" + version + tail` where the split dash is
   the last dash, `tail` starts with the last `.jar`, and the prefix is not empty.
   */
  ghost predicate IsConventional(jarName: string, prefix: string, version: string, tail: string) {
    && jarName == prefix + "-" + version + tail
    && |prefix| > 0
    && '-' !in version
    && '-' !in tail
    && OccursAt(tail, JarExt, 0)
    && forall k :: 0 < k ==> !OccursAt(tail, JarExt, k)
  }

  /**
   `d` is the last dash in `jarName`, standing after index 0, and `o` is the
   start of the last `.jar`, which lies after that dash.
   */
  ghost predicate SplitPositions(jarName: string, d: int, o: int) {
    && 0 < d < o
    && OccursAt(jarName, JarExt, o)
    && jarName[d] == '-'
    && (forall j :: d < j < |jarName| ==> jarName[j] != '-')
    && (forall k :: o < k ==> !OccursAt(jarName, JarExt, k))
  }

  /**
   Inference succeeds exactly when the jar name has a last dash after index 0
   and a last `.jar` after that dash; the name is everything before the dash
   with dashes turned into dots, the version everything between dash and `.jar`.
   */
  lemma InferSucceedsIff(jarName: string)
    ensures InferModule(jarName).Inferred? <==> exists d, o :: SplitPositions(jarName, d, o)
    ensures forall d, o :: SplitPositions(jarName, d, o) ==>
      InferModule(jarName) == Inferred(ReplaceChar(jarName[..d], '-', '.'), jarName[d + 1..o])
  {
    if InferModule(jarName).Inferred? {
      assert SplitPositions(jarName, LastDash(jarName), LastDot(jarName));
    }
    forall d, o | SplitPositions(jarName, d, o)
      ensures InferModule(jarName) == Inferred(ReplaceChar(jarName[..d], '-', '.'), jarName[d + 1..o])
    {
      LastIndexOfCharUnique(jarName, '-', d);
      LastIndexOfUnique(jarName, JarExt, o);
    }
  }

  /** Every successful inference comes from a conventional split of the jar name. */
  lemma InferredIsConventional(jarName: string)
    requires InferModule(jarName).Inferred?
    ensures var r := InferModule(jarName);
      var d := LastDash(jarName);
      var o := LastDot(jarName);
      && IsConventional(jarName, jarName[..d], r.version, jarName[o..])
      && r.name == ReplaceChar(jarName[..d], '-', '.')
  {
    var r := InferModule(jarName);
    var d, o := LastDash(jarName), LastDot(jarName);
    var prefix, tail := jarName[..d], jarName[o..];
    assert jarName == prefix + "-" + r.version + tail;
    assert '-' !in tail by {
      forall i | 0 <= i < |tail| ensures tail[i] != '-' {
        assert tail[i] == jarName[o + i];
      }
    }
    assert jarName == jarName[..o] + tail;
    forall k | 0 <= k
      ensures OccursAt(tail, JarExt, k) <==> OccursAt(jarName, JarExt, o + k)
    {
      OccursAtAppend(jarName[..o], tail, JarExt, k);
    }
  }

  /** Conversely, a conventional split is exactly what the inference finds. */
  lemma ConventionalIsInferred(jarName: string, prefix: string, version: string, tail: string)
    requires IsConventional(jarName, prefix, version, tail)
    ensures InferModule(jarName) == Inferred(ReplaceChar(prefix, '-', '.'), version)
  {
    var d := |prefix|;
    var o := |prefix| + 1 + |version|;
    var head := prefix + "-" + version;
    assert jarName == head + tail;
    forall j | d < j < |jarName| ensures jarName[j] != '-' {
      if j < o {
        assert jarName[j] == version[j - d - 1];
      } else {
        assert jarName[j] == tail[j - o];
      }
    }
    LastIndexOfCharUnique(jarName, '-', d);
    forall k | 0 <= k ensures OccursAt(jarName, JarExt, o + k) <==> OccursAt(tail, JarExt, k) {
      OccursAtAppend(head, tail, JarExt, k);
    }
    forall j | o < j ensures !OccursAt(jarName, JarExt, j) {
      assert !OccursAt(tail, JarExt, j - o);
    }
    LastIndexOfUnique(jarName, JarExt, o);
    assert jarName[..d] == prefix;
    assert jarName[d + 1..o] == version;
  }

  /** Success, both directions: the result names exactly the conventional splits. */
  lemma InferredIffConventional(jarName: string, name: string, version: string)
    ensures InferModule(jarName) == Inferred(name, version) <==>
      exists prefix, tail :: IsConventional(jarName, prefix, version, tail) && name == ReplaceChar(prefix, '-', '.')
  {
    if InferModule(jarName) == Inferred(name, version) {
      InferredIsConventional(jarName);
    }
    if exists prefix, tail :: IsConventional(jarName, prefix, version, tail) && name == ReplaceChar(prefix, '-', '.') {
      var prefix, tail :| IsConventional(jarName, prefix, version, tail) && name == ReplaceChar(prefix, '-', '.');
      ConventionalIsInferred(jarName, prefix, version, tail);
    }
  }

  /** "No dash" is reported exactly when no dash stands after the first character. */
  lemma NoDashIff(jarName: string)
    ensures InferModule(jarName) == Unparsed(NoDash) <==>
      forall i :: 1 <= i < |jarName| ==> jarName[i] != '-'
  {
  }

  /**
   "Last dash comes after the last dot" is reported exactly when some dash after
   the first character has no `.jar` starting after it, including the case of
   a jar name with no `.jar` at all.
   */
  lemma DashAfterDotIff(jarName: string)
    ensures InferModule(jarName) == Unparsed(DashAfterDot) <==>
      exists i :: 1 <= i < |jarName| && jarName[i] == '-' && forall k :: i < k ==> !OccursAt(jarName, JarExt, k)
  {
    var d := LastDash(jarName);
    if exists i :: 1 <= i < |jarName| && jarName[i] == '-' && forall k :: i < k ==> !OccursAt(jarName, JarExt, k) {
      var i :| 1 <= i < |jarName| && jarName[i] == '-' && forall k :: i < k ==> !OccursAt(jarName, JarExt, k);
      assert d >= i;
    }
    if InferModule(jarName) == Unparsed(DashAfterDot) {
      assert 1 <= d && jarName[d] == '-';
    }
  }

  /** The "No dot found" warning is dead code: a position cannot hold both `-` and `.`. */
  lemma NoDotNeverReported(jarName: string)
    ensures InferModule(jarName).Inferred?
      || InferModule(jarName) == Unparsed(NoDash)
      || InferModule(jarName) == Unparsed(DashAfterDot)
  {
  }

  /**
   Any `<prefix>-<version>.jar` whose version has no dash (and the prefix is not
   empty) splits at that dash, with the prefix's dashes turned into dots.
   */
  lemma StandardJarName(prefix: string, version: string)
    requires |prefix| > 0 && '-' !in version
    ensures InferModule(prefix + "-" + version + JarExt) == Inferred(ReplaceChar(prefix, '-', '.'), version)
  {
    StandardIsConventional(prefix, version);
    ConventionalIsInferred(prefix + "-" + version + JarExt, prefix, version, JarExt);
  }

  /** `.jar` occurs in itself only at the start. */
  lemma JarExtOccursOnce()
    ensures OccursAt(JarExt, JarExt, 0)
    ensures forall k :: 0 < k ==> !OccursAt(JarExt, JarExt, k)
  {
  }

  lemma StandardIsConventional(prefix: string, version: string)
    requires |prefix| > 0 && '-' !in version
    ensures IsConventional(prefix + "-" + version + JarExt, prefix, version, JarExt)
  {
    JarExtOccursOnce();
  }

  /**
   Helper for the concrete examples below: the same as StandardJarName, with
   the dotted name checked one position at a time.
   */
  lemma StandardJarNameAs(prefix: string, version: string, name: string)
    requires |prefix| > 0 && '-' !in version
    requires |prefix| == |name|
    requires forall i :: 0 <= i < |prefix| ==> name[i] == (if prefix[i] == '-' then '.' else prefix[i])
    ensures InferModule(prefix + "-" + version + JarExt) == Inferred(name, version)
  {
    StandardJarName(prefix, version);
  }

  /** The example of the doc-comment. */
  lemma GoogleCloudStorageExample()
    ensures InferModule("google-cloud-storage-2.4.1.jar") == Inferred("google.cloud.storage", "2.4.1")
  {
    StandardJarNameAs("google-cloud-storage", "2.4.1", "google.cloud.storage");
    assert "google-cloud-storage" + "-" + "2.4.1" + JarExt == "google-cloud-storage-2.4.1.jar";
  }

  /** Only the last dash splits; earlier dashes become dots in the name. */
  lemma EmbeddedDashExample()
    ensures InferModule("a-b-1.2.3.jar") == Inferred("a.b", "1.2.3")
  {
    StandardJarNameAs("a-b", "1.2.3", "a.b");
    assert "a-b" + "-" + "1.2.3" + JarExt == "a-b-1.2.3.jar";
  }

  /** A jar name without a dash cannot be split. */
  lemma PlainNameExample()
    ensures InferModule("plainname.jar") == Unparsed(NoDash)
  {
    NoDashIff("plainname.jar");
  }

  /** A dash at index 0 does not count as a separator. */
  lemma LeadingDashExample()
    ensures InferModule("-1.0.jar") == Unparsed(NoDash)
  {
    NoDashIff("-1.0.jar");
  }

  /** Without any `.jar` the code reports "dash after dot", not "no dot". */
  lemma MissingExtensionExample()
    ensures InferModule("name-1.0") == Unparsed(DashAfterDot)
  {
    DashAfterDotIff("name-1.0");
    assert "name-1.0"[4] == '-';
  }
}
