/** The builder's configuration string rules (`views/Builder.tsx`): the URL
    normalisation effect and the merge of the `u`/`n`/`c` parameters carried
    in the navigation fragment. */
module ConfigRules {
  import opened Wrappers
  import opened Text
  import opened AppTypes
  import Build

  // ---------------------------------------------------------------------------
  // URL normalisation
  // ---------------------------------------------------------------------------

  /** The test `/^https?:\/\//i`: the string starts with `http://` or
      `https://`, letters in any case. */
  predicate HasScheme(s: string) {
    StartsWithIgnoreCase(s, "http://") || StartsWithIgnoreCase(s, "https://")
  }

  const DefaultScheme: string := "https://"

  /** The URL the configuration takes once the typed text settles: empty stays
      empty, text with an http(s) scheme is kept, anything else gets `https://`. */
  function NormalizeUrl(d: string): (r: string)
    ensures r == "" <==> d == ""
    ensures r != "" ==> HasScheme(r)
    ensures |d| <= |r| && r[|r| - |d|..] == d
    ensures r == d || r == DefaultScheme + d
    ensures HasScheme(d) ==> r == d
  {
    if d == "" then ""
    else if HasScheme(d) then d
    else
      SchemeAddedIsRecognised(d);
      DefaultScheme + d
  }

  lemma SchemeAddedIsRecognised(d: string)
    ensures HasScheme(DefaultScheme + d)
  {
    var s := DefaultScheme + d;
    assert s[..8] == DefaultScheme;
    assert IsLowered(DefaultScheme);
    LowerLowers(DefaultScheme);
  }

  /** Normalising twice is normalising once. */
  lemma NormalizeIdempotent(d: string)
    ensures NormalizeUrl(NormalizeUrl(d)) == NormalizeUrl(d)
  {
  }

  /** A non-empty input keeps its scheme-less text exactly when it already had
      a scheme: the rule never rewrites an existing scheme, whatever its case. */
  lemma NormalizeKeepsIffScheme(d: string)
    requires d != ""
    ensures NormalizeUrl(d) == d <==> HasScheme(d)
  {
  }

  /** The debounced effect, at the moment it fires: it writes the normalised URL
      (or clears it) and touches no other field. The write is skipped when the
      value would not change, which ends in the same configuration. */
  function SettleUrl(config: AppConfig, displayUrl: string): (r: AppConfig)
    ensures r.url == NormalizeUrl(displayUrl)
    ensures r.(url := config.url) == config
  {
    if displayUrl != "" then
      var finalUrl := if !HasScheme(displayUrl) then DefaultScheme + displayUrl else displayUrl;
      if finalUrl != config.url then config.(url := finalUrl) else config
    else config.(url := "")
  }

  /** Once settled, the URL half of the build guard holds exactly when the user
      typed something, and settling again changes nothing. */
  lemma SettleUrlStable(config: AppConfig, displayUrl: string)
    ensures (SettleUrl(config, displayUrl).url != "") <==> displayUrl != ""
    ensures SettleUrl(SettleUrl(config, displayUrl), displayUrl) == SettleUrl(config, displayUrl)
  {
  }

  // ---------------------------------------------------------------------------
  // Fragment parameters
  // ---------------------------------------------------------------------------

  /** The query part of the fragment: the text between its first `?` and the
      next one (or the end), and the empty string when there is no `?`. */
  function QueryString(hash: string): (r: string)
    ensures !Contains(r, "?")
    ensures !Contains(hash, "?") ==> r == ""
    ensures Contains(hash, "?") ==> AfterFirst(hash, "?", r) && r == Split(hash, "?")[1]
  {
    if Contains(hash, "?") then
      SplitSecond(hash, "?");
      After(hash, "?")
    else ""
  }

  /** The three parameters as `URLSearchParams.get` returns them: absent, or
      present with a (possibly empty) value. */
  datatype Params = Params(u: Option<string>, n: Option<string>, c: Option<string>)

  /** A parameter counts only when present and non-empty (JavaScript truthiness). */
  predicate Given(p: Option<string>) {
    p.Some? && p.value != ""
  }

  /** The builder's state that the fragment can set: the configuration and the
      text shown in the URL box. */
  datatype Form = Form(config: AppConfig, displayUrl: string)

  /** The mount-time merge. `decode` stands for `decodeURIComponent`. */
  function MergeFragment(f: Form, p: Params, decode: string -> string): (r: Form)
    ensures !Given(p.u) && !Given(p.n) && !Given(p.c) ==> r == f
    ensures (Given(p.u) || Given(p.n) || Given(p.c)) ==>
      && r.displayUrl == r.config.url
      && r.config.url == (if Given(p.u) then decode(p.u.value) else "")
      && r.config.name == (if Given(p.n) then decode(p.n.value) else f.config.name)
      && r.config.primaryColor == (if Given(p.c) then "#" + p.c.value else f.config.primaryColor)
    ensures r.config.(url := f.config.url, name := f.config.name, primaryColor := f.config.primaryColor) == f.config
  {
    if Given(p.u) || Given(p.n) || Given(p.c) then
      var initialUrl := if Given(p.u) then decode(p.u.value) else "";
      Form(
        f.config.(
          url := initialUrl,
          name := if Given(p.n) then decode(p.n.value) else f.config.name,
          primaryColor := if Given(p.c) then "#" + p.c.value else f.config.primaryColor),
        initialUrl)
    else f
  }

  /** A shared link `?u=…&n=…` on a fresh builder, once the URL has settled,
      yields a configuration that can be built exactly when both decoded values
      are non-empty, with the URL normalised. */
  lemma SharedLinkEnablesBuild(p: Params, decode: string -> string)
    requires Given(p.u) && Given(p.n)
    ensures
      var f := MergeFragment(Form(InitialConfig, ""), p, decode);
      var c := SettleUrl(f.config, f.displayUrl);
      && c.url == NormalizeUrl(decode(p.u.value))
      && c.name == decode(p.n.value)
      && (Build.CanStart(c) <==> decode(p.u.value) != "" && decode(p.n.value) != "")
  {
  }
}
