/** The phone preview (`components/MobileSimulator.tsx`): the `allow`
    attribute handed to the embedded page, and what the frame shows. */
module Simulator {
  import opened Text
  import opened AppTypes

  const CameraEntry: string := "camera *"
  const MicrophoneEntry: string := "microphone *"
  const GeolocationEntry: string := "geolocation *"

  /** The entries that are always granted, in their fixed order. */
  const FixedEntries: seq<string> := ["accelerometer *", "gyroscope *", "magnetometer *", "payment *", "usb *"]

  const Separator: string := "; "

  /** The array literal before filtering: an empty string stands for a switched-off feature. */
  function Candidates(f: Features): (r: seq<string>)
    ensures |r| == 8 && r[3..] == FixedEntries
    ensures r[0] != "" <==> f.cameraAccess
    ensures r[1] != "" <==> f.micAccess
    ensures r[2] != "" <==> f.locationAccess
    ensures r[0] in {"", CameraEntry} && r[1] in {"", MicrophoneEntry} && r[2] in {"", GeolocationEntry}
  {
    [ if f.cameraAccess then CameraEntry else "",
      if f.micAccess then MicrophoneEntry else "",
      if f.locationAccess then GeolocationEntry else "" ] + FixedEntries
  }

  /** `filter(Boolean)` on strings: drops the empty ones, keeps the order. */
  function DropEmpty(xs: seq<string>): (r: seq<string>)
    ensures forall i :: 0 <= i < |r| ==> r[i] != ""
    ensures forall x :: x in r <==> x in xs && x != ""
    decreases |xs|
  {
    if |xs| == 0 then []
    else if xs[0] == "" then DropEmpty(xs[1..])
    else [xs[0]] + DropEmpty(xs[1..])
  }

  lemma {:induction false} DropEmptyAppend(a: seq<string>, b: seq<string>)
    ensures DropEmpty(a + b) == DropEmpty(a) + DropEmpty(b)
    decreases |a|
  {
    if |a| == 0 {
      assert a + b == b;
    } else {
      assert (a + b)[0] == a[0];
      assert (a + b)[1..] == a[1..] + b;
      DropEmptyAppend(a[1..], b);
    }
  }

  lemma DropEmptyKeepsNonEmpty(xs: seq<string>)
    requires forall i :: 0 <= i < |xs| ==> xs[i] != ""
    ensures DropEmpty(xs) == xs
    decreases |xs|
  {
    if |xs| > 0 {
      DropEmptyKeepsNonEmpty(xs[1..]);
      assert xs == [xs[0]] + xs[1..];
    }
  }

  /** The granted entry for one switch: present exactly when the switch is on. */
  function Granted(on: bool, entry: string): seq<string> {
    if on then [entry] else []
  }

  /** The entries of the policy, in order. */
  function PolicyEntries(f: Features): seq<string> {
    DropEmpty(Candidates(f))
  }

  function OnCount(f: Features): nat {
    (if f.cameraAccess then 1 else 0) + (if f.micAccess then 1 else 0) + (if f.locationAccess then 1 else 0)
  }

  /** Filtering the array literal leaves each optional entry exactly when its
      switch is on, in camera, microphone, geolocation order, then the five
      fixed entries. */
  lemma {:induction false} PolicyShape(f: Features)
    ensures PolicyEntries(f) ==
      Granted(f.cameraAccess, CameraEntry) + Granted(f.micAccess, MicrophoneEntry)
      + Granted(f.locationAccess, GeolocationEntry) + FixedEntries
  {
    var c0 := if f.cameraAccess then CameraEntry else "";
    var c1 := if f.micAccess then MicrophoneEntry else "";
    var c2 := if f.locationAccess then GeolocationEntry else "";
    DropEmptyKeepsNonEmpty(FixedEntries);
    DropThree(c0, c1, c2, FixedEntries);
    assert Kept(c0) == Granted(f.cameraAccess, CameraEntry);
    assert Kept(c1) == Granted(f.micAccess, MicrophoneEntry);
    assert Kept(c2) == Granted(f.locationAccess, GeolocationEntry);
  }

  /** What the filter keeps of one string. */
  function Kept(x: string): seq<string> {
    if x == "" then [] else [x]
  }

  /** Filtering three leading strings keeps each one that is non-empty. */
  lemma DropThree(a: string, b: string, c: string, rest: seq<string>)
    ensures DropEmpty([a, b, c] + rest) == Kept(a) + Kept(b) + Kept(c) + DropEmpty(rest)
  {
    assert [a, b, c] + rest == [a] + ([b] + ([c] + rest));
    DropCons(c, rest);
    DropCons(b, [c] + rest);
    DropCons(a, [b] + ([c] + rest));
  }

  lemma DropCons(x: string, rest: seq<string>)
    ensures DropEmpty([x] + rest) == Kept(x) + DropEmpty(rest)
  {
    assert ([x] + rest)[1..] == rest;
  }

  /** What the policy grants: the count is five plus the switches that are on,
      the fixed entries close it, and each optional entry is there exactly when
      its switch is on. */
  lemma PolicyEntriesGrant(f: Features)
    ensures |PolicyEntries(f)| == 5 + OnCount(f)
    ensures PolicyEntries(f)[|PolicyEntries(f)| - 5..] == FixedEntries
    ensures CameraEntry in PolicyEntries(f) <==> f.cameraAccess
    ensures MicrophoneEntry in PolicyEntries(f) <==> f.micAccess
    ensures GeolocationEntry in PolicyEntries(f) <==> f.locationAccess
  {
    PolicyShape(f);
    var opt := Granted(f.cameraAccess, CameraEntry) + Granted(f.micAccess, MicrophoneEntry)
      + Granted(f.locationAccess, GeolocationEntry);
    assert PolicyEntries(f) == opt + FixedEntries;
    assert (opt + FixedEntries)[|opt|..] == FixedEntries;
    FixedEntriesAreNotOptional();
  }

  lemma FixedEntriesAreNotOptional()
    ensures CameraEntry !in FixedEntries && MicrophoneEntry !in FixedEntries && GeolocationEntry !in FixedEntries
  {
    assert |CameraEntry| == 8 && |MicrophoneEntry| == 12 && |GeolocationEntry| == 13;
    assert |FixedEntries[0]| == 15 && |FixedEntries[1]| == 11 && |FixedEntries[2]| == 14
      && |FixedEntries[3]| == 9 && |FixedEntries[4]| == 5;
  }

  /** The `allow` attribute. */
  function FeaturePolicy(f: Features): string {
    Join(PolicyEntries(f), Separator)
  }

  /** Splitting the attribute on `"; "` gives back exactly the entries: there
      is no empty segment and no leading or trailing separator. */
  lemma PolicySegments(f: Features)
    ensures Split(FeaturePolicy(f), Separator) == PolicyEntries(f)
    ensures forall k :: 0 <= k < |PolicyEntries(f)| ==> PolicyEntries(f)[k] != ""
  {
    PolicyShape(f);
    var xs := PolicyEntries(f);
    assert Separator[0] == ';';
    assert forall x :: x in xs ==> x in [CameraEntry, MicrophoneEntry, GeolocationEntry] + FixedEntries;
    NoSemicolonInEntries();
    SplitJoin(xs, Separator);
  }

  lemma NoSemicolonInEntries()
    ensures forall x :: x in [CameraEntry, MicrophoneEntry, GeolocationEntry] + FixedEntries ==> ';' !in x
  {
  }

  /** Push notifications, offline mode, ads and sharing do not reach the policy. */
  lemma PolicyIgnoresOtherFlags(f: Features, g: Features)
    requires f.cameraAccess == g.cameraAccess && f.micAccess == g.micAccess && f.locationAccess == g.locationAccess
    ensures FeaturePolicy(f) == FeaturePolicy(g)
  {
    assert Candidates(f) == Candidates(g);
  }

  // ---------------------------------------------------------------------------
  // The frame
  // ---------------------------------------------------------------------------

  const PreviewFallbackTitle: string := "Web Preview"

  /** What the screen area shows: the empty-state placeholder, or the page
      embedded with its permissions and the overlay title. */
  datatype Screen = AwaitingStream | Embedded(src: string, title: string, allow: string)

  function Render(c: AppConfig): (s: Screen)
    ensures s.Embedded? <==> c.url != ""
    ensures s.Embedded? ==> s.src == c.url && s.allow == FeaturePolicy(c.features)
    ensures s.Embedded? ==> s.title != ""
    ensures s.Embedded? ==> (s.title == c.name <==> c.name != "")
    ensures s.Embedded? ==> s.title == (if c.name != "" then c.name else PreviewFallbackTitle)
  {
    if c.url != "" then
      Embedded(c.url, if c.name != "" then c.name else PreviewFallbackTitle, FeaturePolicy(c.features))
    else AwaitingStream
  }

  const OnlineLabel: string := "Device Online"
  const StandbyLabel: string := "Standby Mode"

  /** The status line under the phone. */
  function StatusLabel(c: AppConfig): (r: string)
    ensures r == OnlineLabel <==> Render(c).Embedded?
    ensures !Render(c).Embedded? ==> r == StandbyLabel
  {
    if c.url != "" then OnlineLabel else StandbyLabel
  }
}
