# sdf-explorer: the live shader editor of `main.js`, modelled in Dafny

sdf-explorer renders a signed-distance-field scene with a full-screen
fragment shader. The user edits the shader in two in-browser editors, and
the edits are recompiled live. This project models the parts of `main.js`
whose behaviour can be stated exactly:

- **`clean`**: the regular expression `/^\s*#version\s+\S+[^\n]*\n?/m`
  removes the first `#version` directive. three.js supplies its own GLSL 3
  header, so the editor's directive has to go. This is the directive of
  section 3.4 (Preprocessor) of the OpenGL ES Shading Language 3.00
  specification. `VersionDirective` has two sides:
  - an executable scan, one function per regex atom;
  - a declarative description of what the regex matches, with the
    leftmost, longest match singled out.

  The lemmas prove that the two agree. They then state what `clean`
  removes and what it leaves untouched.
- **`hexToVec3`**: `#rrggbb` becomes three channels.
  - `HexColor` models `String.prototype.slice` (with its index clamping)
    and `parseInt(_, 16)` for every input: white space, sign, `0x` prefix,
    longest digit prefix, and `NaN`.
  - The division by 255 is kept symbolic.
- **`compile` and `shaderError`**: the live-compile gate.
  - The GPU driver's GLSL compiler is an oracle (`WebGl.Compiler`) that
    gives a verdict and an info log per stage and source text.
  - `WebGl.Context` keeps the shader objects `shaderError` creates and
    deletes.
  - `LiveCompile.CompileGate` is the decision as a value.
  - `Explorer.Explorer.Compile` performs it on the shared material and
    the status badge.
- **`scheduleCompile`**: the debounce. `Debounce` models the single
  `compileTimer` slot and the browser timers still armed, but not time.
- **`MODES`, the mode pill and `applyMode`**: modular stepping through
  the six render modes, and the `iMode` uniform.
- **`setStatus`**: the three badge states.

Mutable module state (`material`, `compileTimer`, `currentMode`,
`uniforms.iMode`, `isPaused`, the status badge, the editors' documents) is
held in the class `Explorer.Explorer`. Its methods are the handlers of
`main.js`, and they are specified by the pure functions of the other
modules.

## Model

| member | source | states |
|---|---|---|
| VersionDirective.Clean | main.js:267 | `clean` itself. Its own contract only bounds the length (the output is never longer than the input). What it deletes is stated by `CleanDeletesFirstDirective`, `CleanKeepsTextWithoutDirective`, `CleanCases` and `DeletedSegmentShape`. |
| VersionDirective.MatchEndAt | main.js:267 | The regex engine's attempt at one start position, one greedy scan per atom. It has no contract of its own; `MatchEndAtCorrect` proves it returns the longest match there, and nothing when none exists. |
| VersionDirective.FindDirective | main.js:267 | The engine's left-to-right search over start positions. It has no contract of its own; `FindDirectiveCorrect` proves it finds the leftmost, longest match. |
| VersionDirective.MatchEndAtCorrect | main.js:267 | The scan at position `p` succeeds exactly when the regex matches at `p`. It then returns the longest match there; otherwise no match starts at `p`. |
| VersionDirective.FindDirectiveCorrect | main.js:267 | The search returns the leftmost start of a match and the longest match at that start, or reports that nothing matches (non-global `replace` acts on the leftmost match). |
| VersionDirective.CleanDeletesFirstDirective | main.js:267 | When a match exists, `clean` returns the text before the leftmost, longest match followed by the text after it. |
| VersionDirective.CleanKeepsTextWithoutDirective | main.js:267 | When no line, after white space, starts with `#version`, white space and a non-space token, `clean` returns its input unchanged. |
| VersionDirective.CleanCases | main.js:267 | `clean` either changes nothing, because there is no match, or deletes exactly one contiguous segment: the first match. At most one directive is ever removed. |
| VersionDirective.DeletedSegmentShape | main.js:267 | The deleted segment is non-empty and starts at a line start. It contains a non-space character after which no line feed occurs before its last character, and it ends at the end of the text or just after a line feed. The output is the input minus the segment, and the text before and after the segment is preserved verbatim. |
| VersionDirective.OnlyFirstDirectiveRemoved | main.js:267 | Of the two lines `#version 300 es` and `#version 100` only the first is removed; a second application of `clean` removes the second. |
| VersionDirective.LeadingBlankLinesRemoved | main.js:267 | Because `\s*` also matches newlines, blank lines and indentation before the directive are deleted with it. |
| VersionDirective.FirstDirectiveMatched | main.js:267 | A directive `#version 300 es` at the start of the text is removed together with its newline, and whatever follows is kept. |
| VersionDirective.LoneDirectiveLineMatched | main.js:267 | A text that is just `#version 100` and a newline cleans to the empty string. |
| VersionDirective.BareDirectiveTakesNextLine | main.js:267 | Because `\s+` after the keyword also crosses a newline, a bare `#version` line takes the following line with it: `#version`, newline, `void x;`, newline, rest cleans to the rest. |
| HexColor.Slice | main.js:270-272 | `slice` returns exactly the clamped range: empty when `start` is at or past the end or `end <= start`; otherwise `min(end, length) - start` characters, each the character of `s` at the same offset from `start`. |
| HexColor.TrimStart | main.js:270-272 | The white-space trim `parseInt` starts with: the result is a suffix of the input, everything removed is white space, and the result does not start with white space. |
| HexColor.ParseIntHex | main.js:270-272 | `parseInt(_, 16)`. It has no contract of its own; `ParsePair` gives its value on two hex digits and `ParseShortRange` bounds it on short inputs. |
| HexColor.ChannelAt | main.js:270-272 | One channel, `parseInt(hex.slice(k, k + 2), 16)` before the division. It has no contract of its own; `ChannelOfPair` gives its value on two hex digits. |
| HexColor.HexToVec3 | main.js:269-274 | `hexToVec3` itself. It has no contract of its own; `HexToVec3OfHexColor`, `HexToVec3OfFormatHex` and `HexToVec3Range` characterise it. |
| HexColor.ParsePair | main.js:270-272 | `parseInt` of two hex digits, of either case, is the byte they write: `16*d(a) + d(b)`. |
| HexColor.ChannelOfPair | main.js:270-272 | The channel read at an offset holding two hex digits is that byte. |
| HexColor.HexToVec3OfHexColor | main.js:269-274 | For `#` followed by six hex digits, the channels are the bytes `16*d(s[1])+d(s[2])`, `16*d(s[3])+d(s[4])` and `16*d(s[5])+d(s[6])`, and each value divided by 255 lies in [0, 1]. |
| HexColor.HexToVec3OfFormatHex | main.js:269-274 | Reading back a colour written as `#rrggbb` with lower-case digits gives the three bytes written. |
| HexColor.ParseShortRange | main.js:270-272 | `parseInt` of at most two characters is `NaN` or an integer in -15..255. |
| HexColor.HexToVec3Range | main.js:269-274 | For any input string every channel is `NaN` or a byte value in -15..255. |
| WebGl.Diagnostic | main.js:556-563 | No diagnostic exactly when the driver accepts the source. Otherwise the diagnostic is non-empty and is `[label] ` followed by the driver's info log. |
| WebGl.ShaderError | main.js:556-564 | Returns that diagnostic. The throw-away shader object is deleted, so the set of live shader objects is unchanged and only the handle counter advances. |
| WebGl.Context.CreateShader | main.js:557 | Returns a fresh handle for a new, empty, uncompiled shader object of the given stage. |
| WebGl.Context.ShaderSource | main.js:558 | Sets that object's source and changes nothing else. |
| WebGl.Context.CompileShader | main.js:559 | Records the driver's verdict on the object's stage and source as its compile status. |
| WebGl.Context.CompileStatus | main.js:560 | `getShaderParameter(sh, COMPILE_STATUS)`. It has no contract of its own; through `CompileShader` it reads back the driver's verdict, which `ShaderError` relies on. |
| WebGl.Context.InfoLog | main.js:561 | `getShaderInfoLog(sh)`: the driver's log for the object's stage and source. It has no contract of its own; `ShaderError`'s result ties it to `Diagnostic`. |
| WebGl.Context.DeleteShader | main.js:562 | Removes the object and changes nothing else. |
| WebGl.Context.constructor | main.js:543 | A context with no shader objects. |
| LiveCompile.CompileGate | main.js:542-554 | Installs exactly when both stages compile, and then installs `clean` of both editor texts. A vertex failure is rejected with `[Vertex] ` and the vertex log. A fragment failure after a vertex success is rejected with `[Fragment] ` and the fragment log. |
| LiveCompile.VertexFailureIgnoresFragment | main.js:546-547 | When the vertex stage fails, the outcome does not depend on the fragment text or on the driver's verdict about it. |
| LiveCompile.InstalledIsCleanedEditorText | main.js:546-551 | The driver judges the raw editor text, and the installed text is never longer than it. Text without a directive is installed verbatim. |
| Status.StatusFor | main.js:566-572 | The state is live exactly for `'live'` and editing exactly for `'typing'`. Every other state word shows an error carrying `msg`. |
| Status.StatusForStateWord | main.js:566-572 | The calls `main.js` makes (`'live'`, `'typing'`, `'error'` with a message) reach each of the three states. |
| Modes.ModeId | main.js:132-139 | The `MODES` table holds the six entries shaded, heatmap, normals, depth, slice and ao, and the `id` of entry `idx` is `idx` itself. |
| Modes.NextMode | main.js:458 | A press of the pill moves to the next mode, from the last mode back to 0, and always stays in 0..5. |
| Modes.PressesAdvance | main.js:457-460 | `k` presses from mode `m` reach `(m + k) mod 6`. |
| Modes.CycleReturns | main.js:457-460 | Six presses return to the starting mode, and no fewer do. |
| Debounce.Initial | main.js:23 | Before the first edit `compileTimer` holds no timer and no timer is armed. |
| Debounce.Fire | main.js:30 | The browser runs timer `id`: an armed timer is used up and compiles, and a cleared one does nothing. It has no contract of its own; `FireOnlyLatest` and `StaleTimersIgnored` characterise it. |
| Debounce.Schedule | main.js:27-31 | `compileTimer` becomes a fresh handle, the previous timer is cleared, and the new timer is the only one armed. |
| Debounce.FireOnlyLatest | main.js:29-30 | A timer that fires is the one held in `compileTimer`. After firing, nothing is armed. |
| Debounce.AtMostOnePending | main.js:27-31 | At most one compile is pending. |
| Debounce.RunKeepsInv | main.js:27-31 | After any sequence of edits and elapsed timers at most one compile is pending. |
| Debounce.BurstArmsOnlyLast | main.js:27-31 | After a burst of `n` edits only the last edit's timer is armed, and the burst compiles nothing. |
| Debounce.StaleTimersIgnored | main.js:29-30 | Once a burst is over, only the last edit's timer compiles; every other timer is ignored. |
| Debounce.CompilesBounded | main.js:27-31 | A run compiles at most once per edit, plus once for a compile already pending at its start. |
| Explorer.ShaderMaterial.constructor | main.js:312-317 | The material holds the given sources and asks for no rebuild. |
| Explorer.Explorer.constructor | main.js:247-257 | After `init`, the editors hold the loaded texts and the material holds them cleaned. Mode 0 is applied, the status is live and no timer is pending. |
| Explorer.Explorer.SetStatus | main.js:566-572 | The status becomes `StatusFor(state, msg)`. |
| Explorer.Explorer.ScheduleCompile | main.js:27-31 | The status becomes editing, the timers advance by `Schedule`, and only the new timer is armed. |
| Explorer.Explorer.Edit | main.js:204 | The changed editor takes the new text, the other editor is untouched, and a compile is scheduled. |
| Explorer.Explorer.Compile | main.js:542-554 | On rejection the status shows the diagnostic, and the material's sources and `needsUpdate` are unchanged. On success both sources are replaced by `clean` of the editor texts, `needsUpdate` is set and the status is live. No shader object is leaked. |
| Explorer.Explorer.Elapse | main.js:29-30 | An armed timer runs `Compile`, with its outcome, and the handle counter advances as in `Compile`; a cleared one changes nothing. Either way the set of live shader objects is unchanged. |
| Explorer.Explorer.ApplyMode | main.js:462-464 | `iMode` becomes the entry's id, which is its index. |
| Explorer.Explorer.CycleMode | main.js:457-460 | `currentMode` becomes `NextMode` of its old value and `iMode` follows it. |
| Explorer.Explorer.SelectMode | main.js:441-445 | A menu click sets `currentMode` and `iMode` to the chosen index. |
| Explorer.Explorer.TogglePause | main.js:403-404 | `isPaused` is negated. |

## Left out

- The shape/material registry, uniform packing, capability probe, fallback
  shader, health monitor and context-loss handling: `main.js` contains no
  such code, so there is nothing of them to model.
- Program linking and validation: `shaderError` compiles each stage on its
  own, and `main.js` never links a program or runs program validation
  before installing the sources.
- Source preprocessing before validation: the driver judges the raw editor
  text, `#version` line included. `clean` is applied only to what gets
  installed. `main.js` strips no comments and rewrites no `#define`.
- A "loading" status: `setStatus` knows only live, editing and error.
- GLSL compilation: the driver's compiler is the `Compiler` oracle. Null
  shader handles from `createShader` after a context loss are not
  modelled.
- `needsUpdate` is a boolean field. In three.js, setting it bumps a version
  counter, and three.js itself is not part of this model.
- Floating point: `HexColor.Value` divides exactly where JavaScript rounds
  to a double. A parsed `-0` is modelled as `0`.
- Strings are sequences of characters, not UTF-16 code units.
  `slice`, `\s` and `\S` act on code units in JavaScript. The two differ
  only for characters outside the Basic Multilingual Plane.
- Time: the 500 ms delay is not modelled, only which timers are still
  armed. The idle fade of the panel is also left out.
- VersionDirective.Clean: its own contract states only the length bound.
  The full characterisation is kept in the lemmas named in its row, because
  quantified clauses on `Clean` itself would be unfolded at every use.
- Explorer.Explorer.SetStatus: only the state is modelled, not the badge's
  text, colours or error tooltip.
- Explorer.Explorer.ApplyMode: only `iMode` is modelled, not the label,
  CSS classes, panels or menu highlighting.
- Explorer.Explorer.Edit: CodeMirror's `docChanged` test is taken as
  given. A transaction that does not change the document is not an edit.
- Explorer.Explorer.constructor: the `fetch` of the two shader files and
  `init`'s error path (status error with the fetch failure) are network
  I/O.
- Presentation and browser APIs: the render loop `animate`, the colormap
  textures, the editor theme, the sliders and colour pickers, the floor
  toggle, the screenshot, the tab switch, camera reset and panel resize.
