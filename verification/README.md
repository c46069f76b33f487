# AppCoPro core rules in Dafny

AppCoPro is a React front end that "converts a website into a native app".
Almost all of it is markup. The behaviour worth stating lives in a few small
rules inside four components. This project lifts those rules out as pure
functions over explicit state and proves what they promise:

- **Build simulation** (`views/Builder.tsx`, `simulateBuild` and "Restart
  Compilation"). A session is `logs`, `progress`, `building` and `completed`.
  A build runs only when the URL and the name are both non-empty. The timed
  loop is a left fold of a single-step transition over the fixed eight-step
  table (`Build.Run`), and `Build.RunTable` / `Build.RunBuild` are the loop
  as written, recording every state an observer can see.
- **Configuration strings** (`views/Builder.tsx`):
  - the URL normalisation effect, which prepends `https://` unless the text
    starts with `http://` or `https://` in any letter case;
  - the merge of the `u`/`n`/`c` parameters of the navigation fragment;
  - the download: file name, package name, MIME type and the layout of the
    padded placeholder blob.
- **Image service client** (`services/geminiService.ts`):
  - stripping a data URL down to its base64 payload. The code does not parse
    a data URL: it splits on the literal text `base64,` wherever it occurs and
    keeps the second piece, the text after the first marker up to the next
    marker or the end;
  - detecting the media type with the regular expression `/data:([^;]+);/`;
  - choosing the first response part that carries inline data;
  - wrapping the result as a PNG data URL;
  - the fail-closed contract: `undefined`, never an exception.
- **Permission policy** (`components/MobileSimulator.tsx`): the `allow`
  attribute of the preview frame. Three switchable entries and five fixed
  ones are filtered and joined with `"; "`. The module also covers what the
  frame shows.
- **AI edit handler** (`components/AIImageEditor.tsx`, `handleEdit`): a
  transition of `prompt`, `processing` and `error`, driven by an abstract
  outcome `Image(s) | NoImage | Threw` of the service call and by whether the
  `onImageChange` callback returns or throws. `Editor.WiredHandler` composes it
  with the modelled service client.

Modules: `Wrappers` (an `Option` type for `undefined`), `Text` (the JavaScript
string operations the rules rely on), `AppTypes` (`types.ts` and the initial
configuration), `Build`, `ConfigRules`, `Artifact`, `Gemini`, `Simulator`,
`Editor`.

The download is a placeholder, not a build, and the model keeps it so:

- the padding is 50 KiB, `1024 * 50` characters `A` (`views/Builder.tsx`,
  line 135);
- the header is a fixed three lines; the app name and URL appear only inside
  the JSON manifest (lines 125-132);
- the file is named `<slug>_v1.0.<ext>` (line 142).

## Model

| member | source | states |
|---|---|---|
| Build.BuildStepsValid | views/Builder.tsx:101-110 | The step table has eight steps. Its progress values are percentages, never decrease and end at 100. The last two steps both report 100, and the last message carries `SUCCESS` at position 1, right after its first character. |
| Build.Progresses | views/Builder.tsx:101-110 | The progress column of a step table, one value per step, in table order. |
| Build.TableProgress | views/Builder.tsx:101-110 | The progress column of the eight-step table reads 10, 25, 40, 55, 75, 90, 100, 100. |
| Build.ValidByProgress | views/Builder.tsx:101-110 | A table whose progress column is a non-decreasing run of percentages ending at 100 is a valid step table. |
| Build.Chained | views/Builder.tsx:101-110 | Progress that never drops from one step to the next never drops between any two steps. |
| Build.SuccessLine | views/Builder.tsx:109 | The last step's message opens with `[`, then `SUCCESS`, then `]`: the bracketed `[SUCCESS]` tag. |
| Build.CanStart | views/Builder.tsx:95 | The build guard: URL and name both non-empty. The compile button is disabled exactly when it fails (line 239), and `Build.SimulateBuild` states that the session is then untouched. |
| Build.FreshBuilderCannotStart | views/Builder.tsx:7-29 | The initial configuration has neither URL nor name, so a fresh builder cannot build and its session is untouched; once a URL and a name are filled in, it can build exactly when both are non-empty. |
| Build.ApplyStep | views/Builder.tsx:114-115 | One loop iteration keeps every earlier log line, appends exactly the step's message as the new last line, sets the progress to the step's, and leaves both flags. |
| Build.Run | views/Builder.tsx:112-116 | The loop over a table never touches the flags; what it does to the log and progress is stated by `Build.RunLogsAndProgress`. |
| Build.Finish | views/Builder.tsx:118-119 | The two updates after the loop leave the session completed and not building, with log and progress as they were. |
| Build.SimulateBuild | views/Builder.tsx:94-120 | With an empty URL or name the session is returned untouched. Otherwise the run ends completed and not building, at progress 100. The log is exactly the system line followed by the eight step messages in table order, and its last line carries `SUCCESS` at position 1 (the tag is bracketed, by `Build.SuccessLine`). |
| Build.RunLogsAndProgress | views/Builder.tsx:112-116 | Folding any step table appends exactly its messages in order. It leaves the last step's progress, or the old progress for an empty table, and leaves the flags alone. |
| Build.RunSnoc | views/Builder.tsx:112-116 | Running one more step of the table is one more single-step transition on the state reached so far. |
| Build.ObservedState | views/Builder.tsx:96-116 | After k steps of a valid table the log has 1 + k lines: the system line, then the first k messages. Progress is within 0..100; it is 0 before the first step and 100 after the last. The session is building and not completed. |
| Build.ObservedMonotone | views/Builder.tsx:112-115 | Between two observation points of one run, the earlier log is a prefix of the later one (append-only), and progress does not decrease. |
| Build.RunTable | views/Builder.tsx:112-116 | The loop as written, over any table, ends with the system line followed by every message in table order, at the last step's progress (0 for an empty table), still building and not completed. Its recorded states start at the freshly started session, and each is one step on from the one before, so the log only grows. On a valid table progress never goes down. |
| Build.TraceStep | views/Builder.tsx:112-116 | One more loop iteration keeps the loop invariant: the new state is the fold over one more step, and the trace extended with it is still one step at a time. |
| Build.TraceEnd | views/Builder.tsx:112-116 | A trace of single steps from the started session ends at the fold of the table, with the system line then every message, the last progress, still building; along the trace the log only grows, and on a valid table progress never goes down. |
| Build.TraceGrows | views/Builder.tsx:112-116 | Along any trace of single steps the log only grows, and on a valid table progress never goes down. |
| Build.RunBuild | views/Builder.tsx:94-120 | The whole handler as written agrees with `SimulateBuild`. It records no state when the guard fails; otherwise it records ten states, from the started session to the final one, with append-only logs and monotone progress. |
| Build.PhaseTransitions | views/Builder.tsx:94-120 | A build that can start goes Building, then Completed; one that cannot start keeps the phase. Restart turns Completed into Idle and leaves the other phases alone. No transition sets both flags. |
| Build.RestartKeepsRun | views/Builder.tsx:268 | Restart changes only the completed flag: log, progress and building flag stay. A later build ends the same as one started from an idle builder. |
| Build.Restart | views/Builder.tsx:268 | Restart clears the completed flag and changes nothing else. |
| ConfigRules.NormalizeUrl | views/Builder.tsx:64-73 | The URL is empty exactly when the typed text is empty. A non-empty result always carries an http(s) scheme and ends with the typed text. The text is kept when it already has a scheme in any letter case; otherwise it is `https://` plus the text. |
| ConfigRules.HasScheme | views/Builder.tsx:66 | The scheme test: the text starts with `http://` or `https://`, letter case ignored. |
| ConfigRules.SchemeAddedIsRecognised | views/Builder.tsx:66-67 | The prefix the rule adds is itself recognised by the scheme test, so a normalised URL passes it. |
| ConfigRules.NormalizeIdempotent | views/Builder.tsx:64-74 | Normalising an already normalised URL changes nothing. |
| ConfigRules.NormalizeKeepsIffScheme | views/Builder.tsx:66-68 | Non-empty text is left unchanged if and only if it already has an http(s) scheme. |
| ConfigRules.SettleUrl | views/Builder.tsx:62-77 | When the debounced effect fires, the configuration's URL becomes the normalised text (the skipped write when it is already equal included), and no other field changes. |
| ConfigRules.SettleUrlStable | views/Builder.tsx:64-74 | After settling, the URL half of the build guard holds exactly when text was typed, and settling again is a no-op. |
| ConfigRules.QueryString | views/Builder.tsx:44 | The query is empty when the fragment has no `?`. Otherwise it is the second piece of splitting on `?`: the text right after the first `?`, up to the next `?` or the end. It never contains `?`. |
| ConfigRules.MergeFragment | views/Builder.tsx:50-59 | With no non-empty `u`, `n` or `c` the form is unchanged. Otherwise the URL and the URL box both become the decoded `u`, or empty when `u` is absent. The name becomes the decoded `n` or stays; the primary colour becomes `#` plus `c` or stays. Every other field is untouched. |
| ConfigRules.SharedLinkEnablesBuild | views/Builder.tsx:42-77 | A fresh builder opened from a link carrying `u` and `n` settles to the normalised decoded URL and the decoded name. It can build exactly when both decoded values are non-empty. |
| Artifact.MimeType | views/Builder.tsx:138 | The blob is typed `application/vnd.android.package-archive` if and only if the download is an APK, and `application/x-ios-app` if and only if it is an IPA. |
| Artifact.Slug | views/Builder.tsx:142 | The name part of the file has no whitespace and no upper-case ASCII letter, and is no longer than the name (under ASCII lowering; see `Text.Lower` below). |
| Artifact.SlugOfWords | views/Builder.tsx:142 | A whitespace run of any length between two words becomes exactly one `_`, and the words are lower-cased and otherwise kept. |
| Artifact.FileName | views/Builder.tsx:142 | The file name is the slug followed by `_v1.0.` and the extension. It has no whitespace and no upper-case ASCII letter. |
| Artifact.TagIsPlain | views/Builder.tsx:142 | The version tag and either extension are whitespace-free and lower case. |
| Artifact.FileNamesDifferOnlyInExtension | views/Builder.tsx:142 | The APK and IPA names of one project agree on everything before the three-letter extension, and they differ. |
| Artifact.PackageName | views/Builder.tsx:131 | The package name is `com.appcopro.native.` followed by the name lower-cased with all its whitespace removed; that tail has no whitespace and no upper-case ASCII letter. |
| Artifact.RemovedKeepsLowered | views/Builder.tsx:131 | Removing whitespace from lower-cased text keeps it lower case. |
| Artifact.LowerRemoveCommute | views/Builder.tsx:131 | Lower-casing then removing whitespace equals removing whitespace then lower-casing. |
| Artifact.PackageNameIgnoresSpaces | views/Builder.tsx:131 | Names that agree once all whitespace is removed get the same package name. |
| Artifact.Padding | views/Builder.tsx:135 | The padding is exactly 51200 characters, all `A`. |
| Artifact.BlobContent | views/Builder.tsx:125-136 | The blob is the fixed header, then the manifest, then the start marker, then exactly 51200 `A`, then the end marker, with the total length to match. |
| Artifact.ManifestRoundTrip | views/Builder.tsx:136 | The manifest can always be read back from the blob. |
| Artifact.MakeDownload | views/Builder.tsx:136-142 | The download carries the MIME type and file name of its kind, and its content gives back the manifest. |
| Gemini.ExtractPayload | services/geminiService.ts:19-21 | Input without `base64,` is returned unchanged. Otherwise the result is the text after the first marker, up to the next marker or the end. It never contains the marker. |
| Gemini.ExtractIsSplitSecond | services/geminiService.ts:19-21 | When the marker is present, the payload is exactly the second piece of splitting on it. |
| Gemini.ExtractIdempotent | services/geminiService.ts:19-21 | Stripping an already stripped payload changes nothing. |
| Gemini.ExtractAfterHeader | services/geminiService.ts:19-21 | A header without a comma, followed by the marker and a marker-free payload, strips to exactly that payload. |
| Gemini.MarkerAfterHeader | services/geminiService.ts:19-21 | After a header without a comma, the first `base64,` is the one right after the header. |
| Gemini.ExtractPngDataUrl | services/geminiService.ts:19-21 | `data:image/png;base64,` plus a payload, and the bare payload, send the same data. |
| Gemini.MatchAt | services/geminiService.ts:24 | One attempt of `/data:([^;]+);/` at a position succeeds exactly when some group can match there, and the group it returns does match. |
| Gemini.NoSemicolonNoRun | services/geminiService.ts:24 | With no `;` after `data:`, no group followed by `;` can start there. |
| Gemini.EmptyRunNoMatch | services/geminiService.ts:24 | A `;` right after `data:` leaves no non-empty group without `;` that is followed by `;`. |
| Gemini.RunBeforeSemicolon | services/geminiService.ts:24 | A first `;` at a positive distance after `data:` closes a group free of `;`, which then matches. |
| Gemini.FirstMatch | services/geminiService.ts:24 | The search returns the leftmost position at or after the start where an attempt succeeds, or reports that none succeeds. |
| Gemini.DetectMime | services/geminiService.ts:24-25 | Without any match the type is `image/png`. Otherwise it is the group of a match with no match to its left. |
| Gemini.MimeMatchUnique | services/geminiService.ts:24 | At a given position at most one group matches. |
| Gemini.MimeGroupEndsAtFirstSemicolon | services/geminiService.ts:24 | A matching group runs from just after `data:` to the first `;`. |
| Gemini.DetectMimeDefault | services/geminiService.ts:24-25 | Input without any `;`, such as every bare base64 payload, falls back to `image/png`. |
| Gemini.DetectDeclaredMime | services/geminiService.ts:24-25 | A data URL `data:<type>;base64,…` yields exactly its declared type. |
| Gemini.FirstInlineData | services/geminiService.ts:46-51 | No data exactly when no part has inline data. Otherwise the data of a part with no inline data before it. |
| Gemini.ImageOf | services/geminiService.ts:44-52 | The result is the PNG data URL of the first inline data among the first candidate's parts. It is absent exactly when there is no candidate, no parts, or no part with inline data. |
| Gemini.EditRequestFor | services/geminiService.ts:19-42 | The request goes to the image model with the prompt verbatim. Its data is the stripped payload, which is marker-free and equals the input when the input has no marker; its media type is the detected type. |
| Gemini.EditImage | services/geminiService.ts:16-57 | A thrown call yields `undefined`; a returned response yields the image picked from it. |
| Gemini.IconText | services/geminiService.ts:64 | The request text is the fixed opening, the prompt verbatim, then the fixed style sentence. |
| Gemini.IconTextRoundTrip | services/geminiService.ts:64 | The prompt can always be read back from the request text. |
| Gemini.IconRequestFor | services/geminiService.ts:61-69 | The icon request targets the image model with a 1:1 aspect ratio, and the prompt is recoverable from its text. |
| Gemini.GenerateIcon | services/geminiService.ts:59-83 | A thrown call yields `undefined`; a returned response yields the image picked from it. |
| Gemini.FailClosed | services/geminiService.ts:44-83 | Whatever the service does, both calls return either `undefined` or a string starting with `data:image/png;base64,`. |
| Simulator.DropEmpty | components/MobileSimulator.tsx:21 | Filtering keeps exactly the non-empty strings of the list. |
| Simulator.Candidates | components/MobileSimulator.tsx:12-20 | The array before filtering has eight slots: the five fixed entries last, and in the first three the camera, microphone and geolocation entries, each non-empty exactly when its switch is on and empty otherwise. |
| Simulator.DropEmptyAppend | components/MobileSimulator.tsx:21 | Filtering a concatenation filters each part and keeps the order. |
| Simulator.DropEmptyKeepsNonEmpty | components/MobileSimulator.tsx:16-21 | A list with no empty string passes the filter unchanged. |
| Simulator.PolicyShape | components/MobileSimulator.tsx:12-21 | The policy entries are camera, microphone and geolocation, each present only when its switch is on and in that order, then the five fixed entries. |
| Simulator.DropThree | components/MobileSimulator.tsx:12-21 | Filtering a list that opens with three strings keeps each of the three exactly when it is non-empty, in order, then the filtered rest. |
| Simulator.DropCons | components/MobileSimulator.tsx:21 | Filtering keeps a leading string exactly when it is non-empty, then filters the rest. |
| Simulator.PolicyEntriesGrant | components/MobileSimulator.tsx:12-21 | There are 5 entries plus one per switched-on option, and the five fixed entries come last. Each optional entry is present if and only if its switch is on. |
| Simulator.FixedEntriesAreNotOptional | components/MobileSimulator.tsx:13-20 | None of the fixed entries is one of the switchable ones. |
| Simulator.NoSemicolonInEntries | components/MobileSimulator.tsx:13-20 | No entry contains the separator's `;`. |
| Simulator.PolicySegments | components/MobileSimulator.tsx:12-21 | Splitting the attribute on `"; "` gives back exactly the entries, none of them empty. There is no leading or trailing separator. |
| Simulator.FeaturePolicy | components/MobileSimulator.tsx:12-21 | The `allow` attribute: the filtered entries joined with `"; "`; its content is stated by `Simulator.PolicySegments` and `Simulator.PolicyEntriesGrant`. |
| Simulator.PolicyIgnoresOtherFlags | components/MobileSimulator.tsx:12-21 | Push notifications, offline mode, ads and sharing have no effect on the attribute. |
| Simulator.Render | components/MobileSimulator.tsx:33-48 | The page is embedded if and only if the URL is non-empty, with that URL and the policy. The title is the name when the name is non-empty and `Web Preview` otherwise, so it is never empty. |
| Simulator.StatusLabel | components/MobileSimulator.tsx:76 | The label reads "Device Online" exactly when the page is embedded, and "Standby Mode" when no URL is set. |
| Editor.BeginEdit | components/AIImageEditor.tsx:18-20 | The handler stops at once exactly when the prompt is whitespace only. Otherwise it sets processing and clears the error, keeping the prompt. |
| Editor.FinishEdit | components/AIImageEditor.tsx:22-34 | After the call, processing is off. The callback is made exactly when a non-empty image came back. The error ends empty exactly when that happens, the callback returns and no error was showing. |
| Editor.Success | components/AIImageEditor.tsx:24 | The `if (result)` test: an image that is a non-empty string. |
| Editor.HandleEdit | components/AIImageEditor.tsx:17-35 | A blank prompt leaves the panel unchanged, with no callback. Otherwise processing ends false. A non-empty image is handed to the callback once; if the callback returns, the prompt and error are cleared, and if it throws, the prompt stays and the generic message is shown. Anything else keeps the prompt and makes no callback; the error is the generic message after a throw and the "Failed to edit" message otherwise. |
| Editor.AtMostOneChange | components/AIImageEditor.tsx:24-26 | The callback fires at most once, and only with the value the call produced, whether or not it throws. |
| Editor.WiredHandler | components/AIImageEditor.tsx:22-31 | With the modelled service client the generic error appears exactly when an image came back and the callback threw. A success passes a PNG data URL to the callback, and the prompt is cleared when the callback returns; a failure shows the "Failed to edit" message. |
| Text.SpaceClass | views/Builder.tsx:131 | `Text.IsSpace`, the class matched by `\s` (here and at line 142) and removed by `trim` (components/AIImageEditor.tsx:18), is exactly these 25 code points: tab, LF, VT, FF, CR, space, U+00A0, U+1680, U+2000 to U+200A, U+2028, U+2029, U+202F, U+205F, U+3000 and U+FEFF. |
| Text.Lower | views/Builder.tsx:131 | Lower-casing keeps the length and maps each ASCII capital to its small letter, leaving every other character. |
| Text.LowerLowers | views/Builder.tsx:142 | Lower-cased text has no capitals, lower-casing is idempotent, and it leaves text without capitals unchanged. |
| Text.LowerAppend | views/Builder.tsx:142 | Lower-casing distributes over concatenation. |
| Text.LoweredAppend | views/Builder.tsx:142 | A concatenation has no capitals exactly when neither part has. |
| Text.LowerAroundUnderscore | views/Builder.tsx:142 | Lower-casing two words joined by `_` lower-cases each and keeps the `_`. |
| Text.IndexOf | services/geminiService.ts:19 | The search returns the first position where the pattern occurs, or reports that it occurs nowhere. |
| Text.ContainsIff | services/geminiService.ts:19 | `includes` holds exactly when the pattern occurs somewhere. |
| Text.OccursInSlice | services/geminiService.ts:20 | An occurrence inside a slice is an occurrence in the whole string. |
| Text.Split | views/Builder.tsx:44 | `split` yields at least one piece, and two or more exactly when the separator occurs. |
| Text.SplitPiecesClean | views/Builder.tsx:44 | No piece of a split contains the separator. |
| Text.FirstPiece | services/geminiService.ts:20 | The first piece is a prefix that runs to the end or stops where the separator occurs, and contains no separator. |
| Text.PieceAt | services/geminiService.ts:20 | The first piece of a suffix sits at that offset in the whole string, and ends at the end or at an occurrence of the separator. |
| Text.After | services/geminiService.ts:20 | The text after the first separator: it sits right after that separator, runs to the end or to the next separator, and contains no separator. |
| Text.SplitSecond | services/geminiService.ts:20 | The second piece of `split` is the text right after the first separator, up to the next one or the end. |
| Text.FreePrefix | services/geminiService.ts:20 | A prefix with no occurrence starting inside it does not contain the pattern. |
| Text.OccursInSuffix | services/geminiService.ts:20 | An occurrence in a suffix is exactly an occurrence in the whole string at the shifted position. |
| Text.JoinSplit | components/MobileSimulator.tsx:21 | Joining the pieces of a split restores the string. |
| Text.Join | components/MobileSimulator.tsx:21 | `join`: the elements with the separator between neighbours; splitting it back is stated by `Text.SplitJoin`. |
| Text.SplitJoin | components/MobileSimulator.tsx:21 | Splitting a join gives back the list, when no element contains the separator's first character. |
| Text.FreeOfFirst | components/MobileSimulator.tsx:21 | A prefix without the separator's first character has no occurrence of the separator starting inside it. |
| Text.FirstAfterWord | components/MobileSimulator.tsx:21 | In a word, then the separator, then more text, the first separator is the one right after the word when the word lacks its first character. |
| Text.RemoveSpaces | views/Builder.tsx:131 | Removing whitespace leaves no whitespace and never lengthens the text. Whitespace-only text becomes empty, and whitespace-free text passes through unchanged. |
| Text.NoSpaceAppend | views/Builder.tsx:131 | A concatenation is whitespace-free exactly when both parts are. |
| Text.RemoveSpacesAppend | views/Builder.tsx:131 | Removal works piece by piece: removing from a concatenation concatenates the removals. |
| Text.DropSpaces | components/AIImageEditor.tsx:18 | Only leading whitespace is dropped, and the rest starts with a non-space character. |
| Text.DropTrailingSpaces | components/AIImageEditor.tsx:18 | Only trailing whitespace is dropped, and the rest ends with a non-space character. |
| Text.Trim | components/AIImageEditor.tsx:18 | `trim` keeps, of the text after its leading whitespace, a prefix followed by whitespace only; `Text.TrimEmptyIffBlank` states when that is empty and that it neither starts nor ends with whitespace. |
| Text.TrimEmptyIffBlank | components/AIImageEditor.tsx:18 | The trimmed prompt is empty if and only if the prompt is whitespace only. Otherwise it neither starts nor ends with whitespace. |
| Text.CollapseSpaces | views/Builder.tsx:142 | Collapsing whitespace runs leaves no whitespace and never lengthens the text. |
| Text.CollapseWord | views/Builder.tsx:142 | A whitespace-free word is copied through unchanged. |
| Text.CollapseRun | views/Builder.tsx:142 | A whole whitespace run, however long, becomes a single `_`. |
| Text.DropRun | views/Builder.tsx:142 | Dropping a whitespace run stops at the first non-space character. |
| Text.CollapseNoSpace | views/Builder.tsx:142 | Whitespace-free text is unchanged by collapsing. |
| Text.CollapseGap | views/Builder.tsx:142 | A whitespace run followed by a word becomes one `_` and the word. |
| Text.CollapseWords | views/Builder.tsx:142 | Two words separated by a whitespace run of any length collapse to the words joined by one `_`. |

## Left out

- Timers: the per-step delays and the 500 ms debounce decide only when a state is observed, not what it is. `ConfigRules.SettleUrl` is the effect at the moment it fires. Keystrokes that cancel a pending timer are not modelled.
- React scheduling: the updates made in one synchronous block are batched into a single state change, as `Build.Started` (the four updates before the loop) and `Build.Finish` (the two after it) model; each loop iteration is one `Build.ApplyStep`. Two overlapping `simulateBuild` runs (a second click while one is running) are not modelled; that depends on `Button`, which is not part of this model.
- The DOM and browser APIs: `Blob`, `createObjectURL`/`revokeObjectURL`, the anchor click, `FileReader` and the icon upload handler, scrolling, and all markup and class strings.
- The manifest text: `JSON.stringify` and `Date.now()` are left out. The manifest is an input to `Artifact.BlobContent`; only its position between the header and the padding is stated.
- ConfigRules.MergeFragment: `URLSearchParams` parsing is not modelled; the three looked-up values are an input. `decodeURIComponent` is an opaque total function, so its exception on a malformed escape is not modelled.
- Text.Lower: lower-cases ASCII letters only, because the Unicode case tables behind `toLowerCase` are not modelled. The file-name and package-name properties therefore speak of ASCII capitals. The length bound of `Artifact.Slug` rests on this too: `toLowerCase` can lengthen a string (`İ` lowers to two UTF-16 code units), so a real slug may be longer than the name.
- Artifact.Slug: the bound "no longer than the name" holds for ASCII lowering only; see the `Text.Lower` line above.
- Editor.HandleEdit: the handler is one atomic step. In the source the prompt input stays editable (its `value={prompt}`, components/AIImageEditor.tsx:58) while `await gemini.editImage(...)` is pending (line 23), so on success `setPrompt('')` can discard text typed in the meantime, and "the prompt stays" after a throw means whatever text is current then. Edits made during the call are not modelled.
- Gemini.ImageOf: a part whose `inlineData` exists but has no `data` field would produce the text `data:image/png;base64,undefined`. Inline data is modelled as always carrying its string.
- The `GoogleGenAI` client, its lazy creation and `process.env.API_KEY` are not modelled. The remote call is a function parameter returning a response or a thrown error, and console logging is dropped.
- Only `inlineData.data` and the parts of the first candidate are modelled; the other response fields are not read by the code.
- The other views (`About`, `Contact`, `Dashboard`, `Landing`, `Privacy`, `Terms`), `constants.tsx` and the routing in `App.tsx` carry no logic and are not part of this model.
