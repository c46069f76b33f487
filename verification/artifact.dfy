/** The placeholder download of the builder view (`handleDownload` in
    `views/Builder.tsx`): the file name, the package name written into the
    manifest, the MIME type, and the layout of the padded text blob. */
module Artifact {
  import opened Wrappers
  import opened Text

  datatype Kind = Apk | Ipa

  function Extension(k: Kind): string {
    match k
    case Apk => "apk"
    case Ipa => "ipa"
  }

  const AndroidMime: string := "application/vnd.android.package-archive"
  const IosMime: string := "application/x-ios-app"

  /** The blob type: the Android package type for `apk`, the iOS placeholder
      otherwise. */
  function MimeType(k: Kind): (r: string)
    ensures r == AndroidMime <==> k == Apk
    ensures r == IosMime <==> k == Ipa
  {
    assert |AndroidMime| != |IosMime|;
    match k
    case Apk => AndroidMime
    case Ipa => IosMime
  }

  // ---------------------------------------------------------------------------
  // Names
  // ---------------------------------------------------------------------------

  const VersionTag: string := "_v1.0."

  /** The name part of the download: whitespace runs become `_`, then lower case. */
  function Slug(name: string): (r: string)
    ensures NoSpace(r) && IsLowered(r)
    ensures |r| <= |name|
  {
    var c := CollapseSpaces(name);
    LowerLowers(c);
    Lower(c)
  }

  /** The `download` attribute of the link. */
  function FileName(name: string, k: Kind): (r: string)
    ensures NoSpace(r) && IsLowered(r)
    ensures |r| == |Slug(name)| + |VersionTag| + 3
    ensures r[..|Slug(name)|] == Slug(name)
    ensures r[|Slug(name)|..] == VersionTag + Extension(k)
  {
    var slug, tag := Slug(name), VersionTag + Extension(k);
    TagIsPlain(k);
    NoSpaceAppend(slug, tag);
    LoweredAppend(slug, tag);
    assert slug + VersionTag + Extension(k) == slug + tag;
    slug + tag
  }

  lemma TagIsPlain(k: Kind)
    ensures NoSpace(VersionTag + Extension(k)) && IsLowered(VersionTag + Extension(k))
  {
    if k == Apk {
      assert VersionTag + Extension(k) == "_v1.0.apk";
    } else {
      assert VersionTag + Extension(k) == "_v1.0.ipa";
    }
  }

  /** The two downloads of one project share everything but the extension,
      and the extension tells them apart. */
  lemma FileNamesDifferOnlyInExtension(name: string)
    ensures
      var a, i := FileName(name, Apk), FileName(name, Ipa);
      && |a| == |i|
      && a[..|a| - 3] == i[..|i| - 3]
      && a[|a| - 3..] == "apk" && i[|i| - 3..] == "ipa"
      && a != i
  {
    var a, i := FileName(name, Apk), FileName(name, Ipa);
    var n := |Slug(name)|;
    assert a[..|a| - 3] == Slug(name) + VersionTag by {
      assert a[..n] == Slug(name) && a[n..|a| - 3] == VersionTag;
    }
    assert i[..|i| - 3] == Slug(name) + VersionTag by {
      assert i[..n] == Slug(name) && i[n..|i| - 3] == VersionTag;
    }
    assert a[|a| - 3..] == a[n..][|VersionTag|..];
    assert i[|i| - 3..] == i[n..][|VersionTag|..];
  }

  /** The slug keeps every word and puts exactly one `_` where a run of
      whitespace separated two of them. */
  lemma SlugOfWords(w1: string, gap: string, w2: string)
    requires NoSpace(w1) && NoSpace(w2)
    requires |gap| > 0 && AllSpace(gap)
    ensures Slug(w1 + gap + w2) == Lower(w1) + "_" + Lower(w2)
  {
    CollapseWords(w1, gap, w2);
    LowerAroundUnderscore(w1, w2);
  }

  const PackagePrefix: string := "com.appcopro.native."

  /** The `package_name` of the manifest: lower case, then every whitespace
      character removed, after a fixed prefix. */
  function PackageName(name: string): (r: string)
    ensures |r| >= |PackagePrefix| && r[..|PackagePrefix|] == PackagePrefix
    ensures NoSpace(r[|PackagePrefix|..]) && IsLowered(r[|PackagePrefix|..])
    ensures r[|PackagePrefix|..] == Lower(RemoveSpaces(name))
  {
    var tail := RemoveSpaces(Lower(name));
    LowerRemoveCommute(name);
    assert IsLowered(tail) by {
      LowerLowers(name);
      RemovedKeepsLowered(Lower(name));
    }
    assert (PackagePrefix + tail)[|PackagePrefix|..] == tail;
    PackagePrefix + tail
  }

  lemma {:induction false} RemovedKeepsLowered(s: string)
    requires IsLowered(s)
    ensures IsLowered(RemoveSpaces(s))
    decreases |s|
  {
    if |s| > 0 {
      RemovedKeepsLowered(s[1..]);
    }
  }

  /** Where the whitespace sits, and how many there are, does not matter to the
      package name: names that agree once whitespace is removed get the same
      package. */
  lemma PackageNameIgnoresSpaces(a: string, b: string)
    requires RemoveSpaces(a) == RemoveSpaces(b)
    ensures PackageName(a) == PackageName(b)
  {
    LowerRemoveCommute(a);
    LowerRemoveCommute(b);
  }

  lemma {:induction false} LowerRemoveCommute(s: string)
    ensures RemoveSpaces(Lower(s)) == Lower(RemoveSpaces(s))
    decreases |s|
  {
    if |s| > 0 {
      assert Lower(s)[1..] == Lower(s[1..]);
      LowerRemoveCommute(s[1..]);
      LowerAppend([s[0]], RemoveSpaces(s[1..]));
    }
  }

  // ---------------------------------------------------------------------------
  // Blob layout
  // ---------------------------------------------------------------------------

  const Header: string := "APPCOPRO_NATIVE_ENGINE_V2.5\nBUILD_BY_SAYED_MOHSIN_ALI\n--------------------------\n"
  const StartMarker: string := "\n\n[BINARY_DATA_START]\n"
  const EndMarker: string := "\n[BINARY_DATA_END]"

  /** 50 KiB of padding. */
  const PaddingSize: nat := 1024 * 50

  function Padding(): (r: string)
    ensures |r| == PaddingSize && forall i :: 0 <= i < |r| ==> r[i] == 'A'
  {
    seq(PaddingSize, i => 'A')
  }

  /** Everything after the manifest. */
  const Trailer: string := StartMarker + Padding() + EndMarker

  /** The text of the blob around a manifest (the manifest itself, a JSON
      document carrying the configuration and a timestamp, is an input here). */
  function BlobContent(manifest: string): (r: string)
    ensures |r| == |Header| + |manifest| + |StartMarker| + PaddingSize + |EndMarker|
    ensures r[..|Header|] == Header
    ensures r[|Header|..|Header| + |manifest|] == manifest
    ensures r[|Header| + |manifest|..|Header| + |manifest| + |StartMarker|] == StartMarker
    ensures forall i :: |Header| + |manifest| + |StartMarker| <= i < |r| - |EndMarker| ==> r[i] == 'A'
    ensures r[|r| - |EndMarker|..] == EndMarker
  {
    var r := Header + manifest + Trailer;
    var p := |Header| + |manifest|;
    assert r[p..] == Trailer;
    assert Trailer[..|StartMarker|] == StartMarker;
    assert Trailer[|Trailer| - |EndMarker|..] == EndMarker;
    assert forall i :: |StartMarker| <= i < |StartMarker| + PaddingSize ==> Trailer[i] == Padding()[i - |StartMarker|];
    r
  }

  /** Reads the manifest back out of a blob: the text between the fixed header
      and the fixed trailer. */
  function ManifestOf(blob: string): Option<string> {
    if |blob| >= |Header| + |Trailer| && blob[..|Header|] == Header && blob[|blob| - |Trailer|..] == Trailer
    then Some(blob[|Header|..|blob| - |Trailer|])
    else None
  }

  /** The blob layout is unambiguous: every manifest can be read back. */
  lemma ManifestRoundTrip(manifest: string)
    ensures ManifestOf(BlobContent(manifest)) == Some(manifest)
  {
    var r := BlobContent(manifest);
    assert r == Header + manifest + Trailer;
    assert r[|r| - |Trailer|..] == Trailer;
    assert r[|Header|..|r| - |Trailer|] == manifest;
  }

  /** What the link offers. */
  datatype Download = Download(fileName: string, mimeType: string, content: string)

  function MakeDownload(name: string, manifest: string, k: Kind): (d: Download)
    ensures d.mimeType == MimeType(k) && d.fileName == FileName(name, k)
    ensures ManifestOf(d.content) == Some(manifest)
  {
    ManifestRoundTrip(manifest);
    Download(FileName(name, k), MimeType(k), BlobContent(manifest))
  }
}
