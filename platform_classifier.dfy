/**
 * Which packages belong to the j2objc platform libraries. Their headers are
 * always found under package directories, whatever output style is chosen.
 */
module PlatformClassifier {
  import opened JavaStrings

  /** The public packages shipped with the j2objc libraries (HeaderMap.PLATFORM_PACKAGES). */
  const PlatformPackages: set<string> := {
    "android",
    "com.android.internal.util",
    "com.google.common",
    "com.google.common.annotations",
    "com.google.common.base",
    "com.google.common.cache",
    "com.google.common.collect",
    "com.google.common.hash",
    "com.google.common.io",
    "com.google.common.math",
    "com.google.common.net",
    "com.google.common.primitives",
    "com.google.common.util",
    "com.google.j2objc",
    "com.google.protobuf",
    "dalvik",
    "java",
    "javax",
    "junit",
    "libcore",
    "org.apache.harmony",
    "org.hamcrest",
    "org.json",
    "org.junit",
    "org.kxml2",
    "org.mockito",
    "org.w3c",
    "org.xml.sax",
    "org.xmlpull",
    "sun.misc"
  }

  /**
   * The package name, cut at the end or just before one of its dots, is in
   * `listed`: `java.util` is covered by `java`, but `javafx` is not, since
   * matching is by whole dotted segments.
   */
  predicate HasListedPrefix(pkgName: string, listed: set<string>) {
    exists k | 0 <= k <= |pkgName| ::
      (k == |pkgName| || pkgName[k] == '.') && pkgName[..k] in listed
  }

  /** The package name has a dotted prefix that is a platform package. */
  predicate HasPlatformPrefix(pkgName: string) {
    HasListedPrefix(pkgName, PlatformPackages)
  }

  /** Every name is non-empty and does not end with a dot. */
  predicate WellFormedNames(listed: set<string>) {
    forall p :: p in listed ==> p != [] && p[|p| - 1] != '.'
  }

  /** The first j + 1 pieces joined with dots: the loop's `pkg` after step j. */
  function DottedPrefix(parts: seq<string>, j: nat): string
    requires j < |parts|
  {
    Join(parts[..j + 1], '.')
  }

  /** Each step of the loop extends the previous prefix by a dot and the next piece. */
  lemma DottedPrefixStep(parts: seq<string>, j: nat)
    requires j < |parts|
    ensures DottedPrefix(parts, j) == if j == 0 then parts[0] else DottedPrefix(parts, j - 1) + "." + parts[j]
  {
    if j > 0 {
      assert parts[..j + 1][..j] == parts[..j];
    }
  }

  /**
   * HeaderMap.isPlatformPackage: split the name on dots and try `seg0`,
   * `seg0.seg1`, ... in turn against the listed packages.
   */
  method IsPlatformPackage(pkgName: string) returns (listed: bool)
    ensures listed == HasPlatformPrefix(pkgName)
  {
    PlatformPackagesWellFormed();
    listed := FindListedPrefix(pkgName, PlatformPackages);
  }

  /**
   * The loop of HeaderMap.isPlatformPackage over a set of names: `pkg` grows
   * by one dotted piece per step, and the first prefix found in the set ends
   * the search.
   */
  method FindListedPrefix(pkgName: string, listed: set<string>) returns (found: bool)
    requires WellFormedNames(listed)
    ensures found == HasListedPrefix(pkgName, listed)
  {
    var parts := Split(pkgName, '.');
    var pkg := "";
    for i := 0 to |parts|
      invariant i > 0 ==> pkg == DottedPrefix(parts, i - 1)
      invariant forall j :: 0 <= j < i ==> DottedPrefix(parts, j) !in listed
    {
      pkg := if i == 0 then parts[0] else pkg + "." + parts[i];
      assert pkg == DottedPrefix(parts, i) by { DottedPrefixStep(parts, i); }
      if pkg in listed {
        assert HasListedPrefix(pkgName, listed) by { ListedSplitPrefix(pkgName, listed, i); }
        return true;
      }
    }
    assert !HasListedPrefix(pkgName, listed) by { NoListedSplitPrefix(pkgName, listed); }
    return false;
  }

  /** Every platform package is a non-empty name that does not end with a dot. */
  lemma PlatformPackagesWellFormed()
    ensures WellFormedNames(PlatformPackages)
  {
  }

  /** A listed joined prefix of the split name is a listed dotted prefix of the name. */
  lemma ListedSplitPrefix(pkgName: string, listed: set<string>, i: nat)
    requires i < |Split(pkgName, '.')|
    requires DottedPrefix(Split(pkgName, '.'), i) in listed
    ensures HasListedPrefix(pkgName, listed)
  {
    var parts := Split(pkgName, '.');
    assert parts[..i + 1] == Segments(pkgName, '.')[..i + 1];
    SegmentPrefixAtBoundary(pkgName, '.', i);
    var p := Join(parts[..i + 1], '.');
    assert pkgName[..|p|] == p;
  }

  /**
   * If no joined prefix of the split name is listed, no dotted prefix is:
   * the prefixes that split drops end in an empty piece, so they are empty
   * or end with a dot, and no well-formed name looks like that.
   */
  lemma NoListedSplitPrefix(pkgName: string, listed: set<string>)
    requires WellFormedNames(listed)
    requires forall j :: 0 <= j < |Split(pkgName, '.')| ==>
      DottedPrefix(Split(pkgName, '.'), j) !in listed
    ensures !HasListedPrefix(pkgName, listed)
  {
    var parts := Split(pkgName, '.');
    var segs := Segments(pkgName, '.');
    forall k | 0 <= k <= |pkgName| && (k == |pkgName| || pkgName[k] == '.')
      ensures pkgName[..k] !in listed
    {
      var i := BoundaryIsSegmentPrefix(pkgName, '.', k);
      if i < |parts| {
        assert parts[..i + 1] == segs[..i + 1];
        assert DottedPrefix(parts, i) == pkgName[..k];
      } else {
        assert segs[..i + 1][i] == [];
        JoinWithEmptyLast(segs[..i + 1], '.');
      }
    }
  }

  /**
   * A name made of dot-free pieces, the last one non-empty, has a listed
   * dotted prefix exactly when one of its joined prefixes is listed.
   */
  lemma {:induction false} ListedByPieces(parts: seq<string>, listed: set<string>)
    requires WellFormedNames(listed)
    requires |parts| >= 1 && parts[|parts| - 1] != []
    requires forall i :: 0 <= i < |parts| ==> '.' !in parts[i]
    ensures HasListedPrefix(Join(parts, '.'), listed) <==>
      exists j :: 0 <= j < |parts| && DottedPrefix(parts, j) in listed
  {
    var s := Join(parts, '.');
    SegmentsOfJoin(parts, '.');
    assert Split(s, '.') == parts by {
      if '.' !in s {
        assert |Segments(s, '.')| == 1;
      }
    }
    if exists j :: 0 <= j < |parts| && DottedPrefix(parts, j) in listed {
      var j :| 0 <= j < |parts| && DottedPrefix(parts, j) in listed;
      ListedSplitPrefix(s, listed, j);
    } else {
      NoListedSplitPrefix(s, listed);
    }
  }

  /** Examples: `java.util` is covered by `java`; deeper listed packages cover their sub-packages. */
  lemma PlatformExamples()
    ensures HasPlatformPrefix("java.util")
    ensures HasPlatformPrefix("com.google.common.collect.testing")
  {
    assert "java.util"[..4] == "java";
    assert "com.google.common.collect.testing"[..17] == "com.google.common";
  }

  /** `com.example.app` is not a platform package: none of `com`, `com.example`, `com.example.app` is listed. */
  lemma ApplicationPackageExample()
    ensures !HasPlatformPrefix("com.example.app")
  {
    var parts := ["com", "example", "app"];
    assert forall i :: 0 <= i < |parts| ==> '.' !in parts[i] by {
      assert '.' !in parts[0] && '.' !in parts[1] && '.' !in parts[2];
    }
    assert Join(parts, '.') == "com.example.app" by { assert parts[..3] == parts; }
    assert "com" + "." + "example" == "com.example";
    assert "com" + "." + "example" + "." + "app" == "com.example.app";
    ComExampleUnlisted();
    UnlistedPrefixes3("com", "example", "app");
    PlatformPackagesWellFormed();
    ListedByPieces(parts, PlatformPackages);
  }

  /** `javafx.scene` is not a platform package: `java` covers whole segments only, never a substring. */
  lemma SegmentMatchingExample()
    ensures !HasPlatformPrefix("javafx.scene")
  {
    var parts := ["javafx", "scene"];
    assert forall i :: 0 <= i < |parts| ==> '.' !in parts[i] by {
      assert '.' !in parts[0] && '.' !in parts[1];
    }
    assert Join(parts, '.') == "javafx.scene" by { assert parts[..2] == parts; }
    assert "javafx" + "." + "scene" == "javafx.scene";
    JavafxUnlisted();
    UnlistedPrefixes2("javafx", "scene");
    PlatformPackagesWellFormed();
    ListedByPieces(parts, PlatformPackages);
  }

  lemma UnlistedPrefixes3(a: string, b: string, c: string)
    requires a !in PlatformPackages
    requires a + "." + b !in PlatformPackages
    requires a + "." + b + "." + c !in PlatformPackages
    ensures forall j :: 0 <= j < 3 ==> DottedPrefix([a, b, c], j) !in PlatformPackages
  {
    var parts := [a, b, c];
    DottedPrefixStep(parts, 0);
    DottedPrefixStep(parts, 1);
    DottedPrefixStep(parts, 2);
  }

  lemma UnlistedPrefixes2(a: string, b: string)
    requires a !in PlatformPackages
    requires a + "." + b !in PlatformPackages
    ensures forall j :: 0 <= j < 2 ==> DottedPrefix([a, b], j) !in PlatformPackages
  {
    var parts := [a, b];
    DottedPrefixStep(parts, 0);
    DottedPrefixStep(parts, 1);
  }

  lemma ComExampleUnlisted()
    ensures "com" !in PlatformPackages && "com.example" !in PlatformPackages
    ensures "com.example.app" !in PlatformPackages
  {
  }

  lemma JavafxUnlisted()
    ensures "javafx" !in PlatformPackages && "javafx.scene" !in PlatformPackages
  {
  }
}
