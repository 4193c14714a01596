/**
 * The downloader's `build_constraints`: the baseline's OS name,
 * architecture, display version and build reduced to what the catalog
 * search is matched against.  An absent baseline field is "".
 */
module Constraints {
  import opened Text

  datatype BaselineConstraints = BaselineConstraints(windowsGen: string, displayVersion: string,
                                                     buildMajor: string, catalogArch: string)

  /** The OS generation: "windows 11" wins over "windows 10"; neither gives "". */
  function WindowsGen(osName: string): (r: string)
    ensures r in {"", "windows 10", "windows 11"}
    ensures r == "windows 11" <==> Contains(Lower(osName), "windows 11")
    ensures r == "windows 10" <==> !Contains(Lower(osName), "windows 11") && Contains(Lower(osName), "windows 10")
  {
    var os := Lower(osName);
    if Contains(os, "windows 11") then "windows 11"
    else if Contains(os, "windows 10") then "windows 10"
    else ""
  }

  /** The catalog architecture bucket; anything unrecognised defaults to "x64". */
  function CatalogArch(architecture: string): (r: string)
    ensures r in {"x64", "arm64", "x86"}
    ensures r == "arm64" <==> Lower(architecture) !in {"x64", "amd64"} && Contains(Lower(architecture), "arm64")
    ensures r == "x86" <==> Lower(architecture) in {"x86", "32-bit"}
  {
    var arch := Lower(architecture);
    NoStartIn("32-bit", "arm64");
    NoStartIn("x86", "arm64");
    if arch in {"x64", "amd64"} then "x64"
    else if Contains(arch, "arm64") then "arm64"
    else if arch in {"x86", "32-bit"} then "x86"
    else "x64"
  }

  /** `build.split(".", 1)[0] if build else ""`: the part before the first dot. */
  function BuildMajor(build: string): (r: string)
    ensures r <= build && !Contains(r, ".")
    ensures Contains(build, ".") ==> OccursAt(build, ".", |r|)
    ensures !Contains(build, ".") ==> r == build
  {
    if build == "" then "" else BeforeFirst(build, ".")
  }

  /**
   * `build_constraints`: the generation is one of the two known ones or "",
   * the architecture one of the three catalog buckets, the display version
   * has no surrounding white space, and the major build is the dot-free
   * prefix of the build.
   */
  function BuildConstraints(osName: string, displayVersion: string, architecture: string, build: string)
    : (c: BaselineConstraints)
    ensures c.windowsGen in {"", "windows 10", "windows 11"} && c.catalogArch in {"x64", "arm64", "x86"}
    ensures c.displayVersion == [] || (!IsSpace(c.displayVersion[0]) && !IsSpace(c.displayVersion[|c.displayVersion| - 1]))
    ensures c.buildMajor <= build && !Contains(c.buildMajor, ".")
    ensures c.windowsGen == WindowsGen(osName) && c.catalogArch == CatalogArch(architecture)
    ensures c.displayVersion == Strip(displayVersion) && c.buildMajor == BuildMajor(build)
  {
    BaselineConstraints(WindowsGen(osName), Strip(displayVersion), BuildMajor(build), CatalogArch(architecture))
  }

  /** An ARM64 architecture string is never bucketed as x86, and "amd64" is x64 even though it names no "x64". */
  lemma ArchBuckets()
    ensures CatalogArch("AMD64") == "x64" && CatalogArch("ARM64") == "arm64"
    ensures CatalogArch("32-bit") == "x86" && CatalogArch("") == "x64"
  {
    assert Lower("AMD64") == "amd64";
    assert Lower("ARM64") == "arm64";
    assert OccursAt("arm64", "arm64", 0);
    assert Lower("32-bit") == "32-bit";
  }
}
