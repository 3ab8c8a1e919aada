# DynamicNumberLabel and SkiaCanvasTexture2D, modelled in Dafny

This project models two Godot components. Their engine and native calls are
turned into inputs.

- **`DynamicNumberLabel`**, the main part. This is a `Label` that shows an
  `int` with a prefix, a suffix, optional thousands grouping with a
  configurable delimiter, and zero padding to a digit budget (`MaxDigits`).
  It animates between values, either by counting with a tween or by showing
  random values between start and target.
  The model covers:
  - the clamp to the digit budget;
  - the two formatting paths;
  - `Text`;
  - the state machine over `Value`, the value on screen, the start and the
    target.
  Tween steps, random-timer ticks and tween completion are events. Each event
  carries the (already rounded) integer the engine would have produced.
- **`SkiaCanvasTexture2D`**, the secondary part. This is a `Texture2D` that
  SkiaSharp draws into. The model covers:
  - the dimensions it is built with;
  - the choice between GPU mode and CPU mode;
  - the fallback from GPU mode to CPU mode;
  - what `UpdateTexture` and `GetImage` do in each mode;
  - the `Dirty` flag;
  - the order in which the Vulkan loader library is looked for;
  - how `GetProcedureAddress` encodes the name and picks the device or
    instance lookup.
  The host's answers are inputs:
  - the driver name;
  - whether a rendering device exists;
  - whether a library loads;
  - whether the GPU context and surface are created.

Modules:

| file | module | contents |
|---|---|---|
| `outcomes.dfy` | `Outcomes` | `Option`, `Result` |
| `decimal.dfy` | `Decimal` | 32-bit range, decimal digits, zero padding |
| `text.dfy` | `Text` | ordinal `String.Replace`, grouping digits in threes |
| `number_format.dfy` | `NumberFormat` | `ClampToMaxDigits`, `FormatNumber`, `FormatWithPadding`, `ApplyPadding` |
| `number_label.dfy` | `NumberLabel` | the label's state and operations, event runs |
| `vulkan_loader.dfy` | `VulkanLoader` | `TryLoadVulkanLibrary` |
| `proc_address.dfy` | `ProcAddress` | UTF-16 to UTF-8, `GetProcedureAddress` |
| `canvas_texture.dfy` | `CanvasTexture` | constructors, `Initialize`, `VulkanCreateTexture`, `UseImageCopy`, `UpdateTexture`, `GetImage` |

Choices in the model:

- C# semantics:
  - `String.Replace` is ordinal. It scans left to right and replaces
    non-overlapping occurrences.
  - `ToString("N0")` is taken in the invariant culture: groups of three, a
    `,` separator, and a leading `-`.
  - `ToString("D<n>")` pads the magnitude with zeros to `n` digits.
- `requires` clauses (predicates `Usable` and `Formattable`) rule out three
  inputs:
  - `MaxDigits > 9` is outside the modelled range: `(int)Math.Pow(10,
    MaxDigits)` leaves `int` range, and the unchecked cast's result is
    unspecified;
  - `int.MinValue` makes `Math.Abs` throw on the padded path without a
    delimiter;
  - an empty `Delimiter` makes `Replace` throw on the padded path with a
    delimiter.
  The round trip in `FormatNumber`'s contract also asks that the delimiter
  contain no digit and no `-`.
- The label's operations clamp with the corrected `ClampToMaxDigits`, which
  saturates. Only `SetValueInstantAsWritten` uses the clamp as written,
  which throws on the unassigned `Logger` (see Findings).
- The texture constructors `NewTexture` and `NewDefaultTexture` use the
  corrected `Initialize`, which loads the Vulkan loader only on the Vulkan
  path. Only `InitializeAsWritten` loads it first, during type
  initialisation, and throws without it whatever the driver (see Findings).
- The `Value` setter is an event that only stores the value.
- Behaviour of the code that the model keeps:
  - `UpdateTexture` never clears `Dirty`;
    `CanvasTexture.ModeIsFixedAndDirtyStays` proves it stays true. There is
    no use-after-dispose state.
  - The `Width` and `Height` setters store any value and touch nothing
    else, so after a resize the bitmap keeps its old size
    (`CanvasTexture.ResizeLeavesBitmapBehind`).
  - `StartAnimation` shows the start value **unclamped** on its first
    frame, while it keeps the clamped start for the animation. The model
    does the same.
  - `_Ready` without `AnimateOnReady` does not set the target. A
    `StopAnimation` straight after it therefore shows the old target
    (`NumberLabel.StopAfterReadyShowsOldTarget`).

## Model

| member | source | states |
|---|---|---|
| NumberFormat.ClampToMaxDigits | Component/DynamicNumberLabel/DynamicNumberLabel.cs:269-296 | No limit when MaxDigits <= 0. Otherwise the result lies in [1 - 10^max(1,MaxDigits-1), 10^MaxDigits - 1], values inside are unchanged, and values outside saturate at the nearer bound. |
| NumberFormat.ClampToMaxDigitsAsWritten | Component/DynamicNumberLabel/DynamicNumberLabel.cs:274-292 | As written, the clamp returns only for values already in range (and then returns them unchanged). Both saturating branches log through the unassigned Logger and throw. |
| NumberFormat.ClampAsWrittenThrowsWhereItClamps | Component/DynamicNumberLabel/DynamicNumberLabel.cs:276-291 | The as-written clamp throws exactly on the inputs the corrected clamp changes, e.g. 1000 with MaxDigits 3. |
| NumberFormat.FitsBudgetIffInRange | Component/DynamicNumberLabel/DynamicNumberLabel.cs:284-287 | A value lies in the clamp range iff its magnitude fits in MaxDigits digits, or in max(1, MaxDigits-1) digits when negative (one digit is reserved for the minus sign). |
| NumberFormat.ClampRespectsDigitBudget | Component/DynamicNumberLabel/DynamicNumberLabel.cs:269-296 | A clamped value always fits the digit budget; a value that fits is untouched, so clamping twice is clamping once. |
| NumberFormat.PaddedNonNegative | Component/DynamicNumberLabel/DynamicNumberLabel.cs:314-317 | Without a delimiter and with MaxDigits > 0, a non-negative n formats as all digits, of length max(MaxDigits, digits of n), whose numeric value is n. |
| NumberFormat.PaddedNegative | Component/DynamicNumberLabel/DynamicNumberLabel.cs:319-321 | Without a delimiter, a negative n formats as '-' followed by all digits, of length max(max(1, MaxDigits-1), digits of abs n), whose value is abs n. |
| NumberFormat.DelimitedUnpadded | Component/DynamicNumberLabel/DynamicNumberLabel.cs:305 | With a delimiter and no budget, the text is '-' iff n < 0, followed by the digits of abs n grouped in threes from the right and joined by the delimiter. |
| NumberFormat.DelimitedPadded | Component/DynamicNumberLabel/DynamicNumberLabel.cs:324-358 | With a delimiter and a budget, the text starts with '-' iff n < 0. Removing the delimiter and '-' leaves abs n's digits left-padded with zeros to the sign-dependent budget. |
| NumberFormat.FormatNumber | Component/DynamicNumberLabel/DynamicNumberLabel.cs:298-307 | Without a delimiter, or with one that holds no digit and no '-', the text is non-empty, starts with '-' iff n < 0, and removing the delimiter and parsing gives back n. |
| NumberFormat.FormatWithPadding | Component/DynamicNumberLabel/DynamicNumberLabel.cs:309-322 | The sign ('-' iff n < 0), then only digits: as many as abs n needs, or the sign-dependent budget when that is more (none when MaxDigits <= 0). The text parses back to n. |
| NumberFormat.ApplyPadding | Component/DynamicNumberLabel/DynamicNumberLabel.cs:324-358 | Unchanged when MaxDigits <= 0. Otherwise the zeros missing to the budget, counted after removing the delimiter (and every '-' for a negative number), go in front of a non-negative number's text, or right after the sole leading '-' of a negative one. |
| NumberFormat.InsertZerosAfterSign | Component/DynamicNumberLabel/DynamicNumberLabel.cs:346-350 | Replacing every '-' by '-' and the zeros, in a text whose only '-' leads it, puts the zeros right after the sign. |
| NumberFormat.DelimitedLayout | Component/DynamicNumberLabel/DynamicNumberLabel.cs:298-358 | With a delimiter free of digits and '-', the text is the sign, then the missing zeros (ungrouped), then abs n's digits grouped in threes with the delimiter. |
| NumberFormat.DelimitedReadsBack | Component/DynamicNumberLabel/DynamicNumberLabel.cs:298-358 | On the delimited path the text starts with '-' iff n < 0, and removing the delimiter and parsing gives back n. |
| NumberFormat.ClampedFixedWidth | Component/DynamicNumberLabel/DynamicNumberLabel.cs:309-322 | Without a delimiter, every clamped value formats to exactly the budget width (plus the minus sign). |
| Text.GroupFromLeftIsFromRight | Component/DynamicNumberLabel/DynamicNumberLabel.cs:305 | Grouping from the left (head of 1 to 3 digits, then blocks of 3) equals grouping in threes from the right. |
| Text.ReplaceSeparator | Component/DynamicNumberLabel/DynamicNumberLabel.cs:305 | Replacing ',' by the delimiter in grouped digits equals grouping with the delimiter. |
| NumberLabel.ClampedIsFormattable | Component/DynamicNumberLabel/DynamicNumberLabel.cs:269-296 | A clamped value can always be formatted and fits the digit budget. |
| NumberLabel.UpdateDisplay | Component/DynamicNumberLabel/DynamicNumberLabel.cs:263-267 | Afterwards Text is Prefix + FormatNumber(display) + Suffix, and nothing else changes. |
| NumberLabel.StartAnimation | Component/DynamicNumberLabel/DynamicNumberLabel.cs:97-128 | Value and target become clamp(target) and the start becomes clamp(start); the screen shows the start unclamped; old tween and timer are replaced by one new animation of the configured kind. |
| NumberLabel.StartAnimationTo | Component/DynamicNumberLabel/DynamicNumberLabel.cs:87-90 | Counts from 0: start and screen 0, Value and target clamp(target); one new animation of the configured kind starts, with settings and signals unchanged. |
| NumberLabel.StartAnimationFromValue | Component/DynamicNumberLabel/DynamicNumberLabel.cs:78-81 | Counts from 0 to the clamped current Value: one new animation of the configured kind starts, with settings and signals unchanged. |
| NumberLabel.Ready | Component/DynamicNumberLabel/DynamicNumberLabel.cs:61-73 | With AnimateOnReady, counts from 0 to clamp(Value): start and screen 0, one new animation of the configured kind, no signal, format and animation settings unchanged. Otherwise it shows Value unclamped and changes nothing but the screen and Text. |
| NumberLabel.OnRandomTimerTimeout | Component/DynamicNumberLabel/DynamicNumberLabel.cs:164-187 | Once progress >= 1, a tick changes nothing. Before that, the screen shows a value within [min(start,target), max(start,target)] whatever the random candidate; only the screen and Text change. |
| NumberLabel.OnRandomProgressUpdate | Component/DynamicNumberLabel/DynamicNumberLabel.cs:189-192 | The progress is recorded; the screen, Text, values, signals and animation state are unchanged, so consistency and Text showing the screen are kept. |
| NumberLabel.FinishedProgressFreezesTicks | Component/DynamicNumberLabel/DynamicNumberLabel.cs:164-192 | Once the progress tween has reported 1 or more, every later timer tick leaves the label unchanged, whatever its candidate. |
| NumberLabel.OnTweenUpdate | Component/DynamicNumberLabel/DynamicNumberLabel.cs:243-247 | A counting-tween step shows the tween's value; only the screen and Text change. |
| NumberLabel.OnAnimationComplete | Component/DynamicNumberLabel/DynamicNumberLabel.cs:249-261 | Completion shows the target, stops all animation and appends AnimationFinished to the signals; nothing else changes. |
| NumberLabel.StopAnimation | Component/DynamicNumberLabel/DynamicNumberLabel.cs:217-232 | Stopping shows the target, stops tween and timer, and emits nothing; nothing else changes. |
| NumberLabel.SetValueInstantAsWritten | Component/DynamicNumberLabel/DynamicNumberLabel.cs:198-212 | As written, with the clamp as written: throws exactly when v lies outside the digit budget. Otherwise Value, screen and target become v and the tween is killed; the random timer keeps running and nothing else changes. |
| NumberLabel.SetValueInstant | Component/DynamicNumberLabel/DynamicNumberLabel.cs:198-212 | Corrected (the clamp saturates, the timer is dropped): Value, screen and target become clamp(v), tween and timer are dropped, and nothing else changes. |
| NumberLabel.SetValueInstantDiffersOnlyInTimer | Component/DynamicNumberLabel/DynamicNumberLabel.cs:198-212 | Where the source's SetValueInstant returns, it leaves the same label as the corrected one except for the random timer. |
| NumberLabel.SetValueInstantAsWrittenThrowsOutsideBudget | Component/DynamicNumberLabel/DynamicNumberLabel.cs:198-212 | With MaxDigits 3, SetValueInstant(1000) as written throws, while the corrected one shows 999. |
| NumberLabel.IsAnimating | Component/DynamicNumberLabel/DynamicNumberLabel.cs:237-241 | True exactly when a tween completion or a random-timer tick can still arrive. |
| NumberLabel.SetAnimationSettings | Component/DynamicNumberLabel/DynamicNumberLabel.cs:375-382 | The five animation settings take the given values and every other field is unchanged. |
| NumberLabel.AnimateToValue | Component/DynamicNumberLabel/DynamicNumberLabel.cs:388-394 | Animates from the value on screen to clamp(n): the old tween and timer are replaced by one new animation of the configured kind, and format and animation settings are unchanged. Value becomes clamp(n) and ValueChanged(previous Value, clamp(n)) is appended. |
| NumberLabel.Run | Component/DynamicNumberLabel/DynamicNumberLabel.cs:263-267 | After any sequence of calls (the Value setter included) and engine callbacks, the label stays consistent and Text keeps showing the value on screen. |
| NumberLabel.TextAlwaysShowsDisplay | Component/DynamicNumberLabel/DynamicNumberLabel.cs:61-73 | From _Ready on, Text is always Prefix + FormatNumber(display) + Suffix. |
| NumberLabel.NewLabelIsConsistent | Component/DynamicNumberLabel/DynamicNumberLabel.cs:16-50 | The exported defaults are consistent, and _Ready on a new label shows 0. |
| NumberLabel.CompletionIsStopPlusSignal | Component/DynamicNumberLabel/DynamicNumberLabel.cs:249-261 | Completion leaves the same state as StopAnimation, plus the AnimationFinished signal. |
| NumberLabel.StopAfterStartShowsClampedTarget | Component/DynamicNumberLabel/DynamicNumberLabel.cs:97-128 | Stopping any started animation shows the clamped target and its text. |
| NumberLabel.AnimateToValueKeepsText | Component/DynamicNumberLabel/DynamicNumberLabel.cs:388-394 | AnimateToValue starts from what is shown: afterwards Text renders the old screen value, so when Text showed it before, Text does not jump. |
| NumberLabel.SetValueInstantIdempotent | Component/DynamicNumberLabel/DynamicNumberLabel.cs:198-212 | Setting the same value instantly twice is the same as setting it once. |
| NumberLabel.DisplayStaysWithinBudget | Component/DynamicNumberLabel/DynamicNumberLabel.cs:164-187 | With a budget, the screen stays within it through every event except a tween step and the unclamped first frame of StartAnimation. |
| NumberLabel.StopAfterReadyShowsOldTarget | Component/DynamicNumberLabel/DynamicNumberLabel.cs:61-73 | _Ready without AnimateOnReady does not set the target, so StopAnimation right after shows the old target. |
| NumberLabel.SetValueInstantAsWrittenKeepsTicking | Component/DynamicNumberLabel/DynamicNumberLabel.cs:198-212 | Random mode, 0 to 100, then SetValueInstant(50) as written: the timer is still live and its next tick shows 0. |
| NumberLabel.SetValueInstantSettles | Component/DynamicNumberLabel/DynamicNumberLabel.cs:198-212 | After the corrected SetValueInstant, no tween step, progress step, tick or completion can arrive. |
| VulkanLoader.TryLoadIsFirstSuccess | Component/GodotSkia/SkiaCanvasTexture2D.cs:49-74 | The source's chain of short-circuiting tries equals an in-order search over the platform's candidate list. |
| VulkanLoader.TryLoadVulkanLibraryOrder | Component/GodotSkia/SkiaCanvasTexture2D.cs:49-74 | The candidates tried are a prefix of the platform's list and all but the last failed. A handle is returned iff some candidate loads, and it is the first one that loads. If none loads, every candidate was tried. |
| VulkanLoader.FallbackPathOnlyWithoutVariable | Component/GodotSkia/SkiaCanvasTexture2D.cs:61-63 | /usr/local/lib/libvulkan.dylib is tried only on macOS/iOS with DYLD_FALLBACK_LIBRARY_PATH unset. |
| ProcAddress.EncodeScalar | Component/GodotSkia/SkiaCanvasTexture2D.cs:282 | A scalar encodes to 1 to 4 UTF-8 bytes, with a NUL byte iff the scalar is NUL. |
| ProcAddress.Utf8Length | Component/GodotSkia/SkiaCanvasTexture2D.cs:282 | UTF-8 of n UTF-16 code units (lone surrogates replaced) takes between n and 3n bytes. |
| ProcAddress.GetProcedureAddress | Component/GodotSkia/SkiaCanvasTexture2D.cs:277-293 | Throws iff the name needs more than 127 UTF-8 bytes. Uses the device lookup iff device != 0, else the instance lookup. The buffer holds the UTF-8 name, then a NUL, then the untouched rest of the buffer (zeros in practice; the model leaves it free). |
| ProcAddress.NativeSideReadsTheName | Component/GodotSkia/SkiaCanvasTexture2D.cs:279-291 | For a name without NUL, the native side's C string is exactly the name's UTF-8, whatever the buffer held before. |
| ProcAddress.AsciiNameFitsIffShort | Component/GodotSkia/SkiaCanvasTexture2D.cs:279-283 | An ASCII name is accepted iff it has at most 127 characters. |
| ProcAddress.ShortNamesFitLongNamesDoNot | Component/GodotSkia/SkiaCanvasTexture2D.cs:279-283 | Names of up to 42 code units always fit; names over 127 code units never do. |
| CanvasTexture.UseImageCopy | Component/GodotSkia/SkiaCanvasTexture2D.cs:321-326 | CPU mode: a Width x Height RGBA8888 premultiplied bitmap with a canvas on it; nothing else changes. |
| CanvasTexture.VulkanCreateTexture | Component/GodotSkia/SkiaCanvasTexture2D.cs:220-275 | Succeeds iff library, context and surface all exist. A null context throws and a null surface disposes the context and throws. Canvas and GPU mode are set only on success. |
| CanvasTexture.Initialize | Component/GodotSkia/SkiaCanvasTexture2D.cs:108-148 | Corrected: fails only without a rendering device. GPU mode iff the driver is "vulkan" and library, context and surface all exist; any other outcome is the CPU bitmap. |
| CanvasTexture.LoaderLoads | Component/GodotSkia/SkiaCanvasTexture2D.cs:42 | A host's "Vulkan loader loads" answer is true exactly when one of the platform's loader candidates loads, as the search in TryLoadVulkanLibrary finds. |
| CanvasTexture.InitializeAsWritten | Component/GodotSkia/SkiaCanvasTexture2D.cs:44-47 | As written: without a Vulkan loader the type initialiser throws before Initialize runs, whatever the driver. |
| CanvasTexture.NewTexture | Component/GodotSkia/SkiaCanvasTexture2D.cs:101-106 | With the corrected Initialize: Width = max(width, 1), Height = max(height, 1), Dirty set. |
| CanvasTexture.NewDefaultTexture | Component/GodotSkia/SkiaCanvasTexture2D.cs:94-99 | With the corrected Initialize: 512 x 512, Dirty set. |
| CanvasTexture.UpdateTexture | Component/GodotSkia/SkiaCanvasTexture2D.cs:168-182 | GPU mode flushes (if there is a context) and never uploads. CPU mode without a bitmap does nothing. Otherwise it uploads an RGBA8 image without mipmaps, of the bitmap's size and exactly ByteCount bytes. |
| CanvasTexture.GetImage | Component/GodotSkia/SkiaCanvasTexture2D.cs:196-203 | An empty Width x Height RGBA8 image when the GPU surface or the CPU bitmap is absent; otherwise the surface snapshot or the bitmap. |
| CanvasTexture.MarkDirty | Component/GodotSkia/SkiaCanvasTexture2D.cs:187-190 | Dirty becomes true and nothing else changes. |
| CanvasTexture.Run | Component/GodotSkia/SkiaCanvasTexture2D.cs:76-91 | No call clears Dirty; mode, canvas, bitmap and context never change. Width and Height end as the last value their setter assigned anywhere in the calls (LastWidth, LastHeight), or stay when it is never called. |
| CanvasTexture.ConstructedIsWellFormed | Component/GodotSkia/SkiaCanvasTexture2D.cs:94-148 | With the corrected Initialize, every successful construction gives either a full GPU set-up or a full CPU set-up, at least 1 x 1, with Dirty set. |
| CanvasTexture.ModeIsFixedAndDirtyStays | Component/GodotSkia/SkiaCanvasTexture2D.cs:76-91 | After construction, Dirty stays true and mode, canvas, bitmap and context never change. Without a Width or Height assignment nothing changes and the texture stays well-formed. |
| CanvasTexture.ResizeLeavesBitmapBehind | Component/GodotSkia/SkiaCanvasTexture2D.cs:150-182 | Assigning a new Width to a CPU texture breaks well-formedness: _GetWidth reports the new width while UpdateTexture still uploads an image of the old one. |
| CanvasTexture.OtherDriverMeansCpu | Component/GodotSkia/SkiaCanvasTexture2D.cs:131-147 | With the corrected Initialize, a driver other than "vulkan" gives CPU mode, whatever the loader and the GPU side would answer. |
| CanvasTexture.FallbackNeverThrows | Component/GodotSkia/SkiaCanvasTexture2D.cs:133-142 | With the corrected Initialize and a rendering device, construction never throws; a failed GPU attempt ends in CPU mode with a bitmap. |
| CanvasTexture.UpdateOnConstructed | Component/GodotSkia/SkiaCanvasTexture2D.cs:168-203 | On a constructed texture, GPU mode flushes. CPU mode uploads 4 x Width x Height bytes, the same image GetImage returns. |
| CanvasTexture.NoVulkanLoaderBreaksFallback | Component/GodotSkia/SkiaCanvasTexture2D.cs:44-47 | Driver d3d12, device present, no Vulkan loader: as written construction throws, while the corrected one gives CPU mode. |
| CanvasTexture.Resolve | Component/GodotSkia/SkiaCanvasTexture2D.cs:35-42 | A lazily cached handle asks the host only when nothing is cached. A non-null answer is cached and returned; a null one is returned and not cached. |
| CanvasTexture.ResolvedOnce | Component/GodotSkia/SkiaCanvasTexture2D.cs:35-42 | Once the host has supplied a handle, a second read returns it without asking again. |
| CanvasTexture.NullAnswerAsksAgain | Component/GodotSkia/SkiaCanvasTexture2D.cs:35-42 | While the host answers null nothing is cached, so the next read asks it again. |

## Left out

- Logging: besides the null `Logger` (see Findings), `GD.PrintErr` in the fallback and `GD.Print` in `Free` are not modelled.
- Tween easing, `Mathf.Lerp`, `Mathf.RoundToInt` and `Random.NextDouble`: these are floating point and randomness. A tween step carries an arbitrary formattable `int`, and a tick carries an arbitrary integer candidate. The clamp of that candidate to `[min(start,target), max(start,target)]` is modelled.
- Timer and tween scheduling, pause mode, `AnimationDuration` and `RandomUpdateInterval`: these only decide when events arrive. They are stored but have no effect in the model.
- `IsAnimating` asks the engine whether the tween is running. The model counts a tween that has not finished, or a live random timer.
- The format property setters (`Prefix`, `Suffix`, `UseDelimiter`, `Delimiter`, `MaxDigits`) are plain auto-properties that do not refresh `Text`. The format settings are therefore fixed for a label's lifetime in the model.
- NumberFormat.ClampToMaxDigits: requires `MaxDigits <= 9`, because `(int)Math.Pow(10, MaxDigits)` is out of `int` range above that and the unchecked cast's result is unspecified.
- NumberLabel.Clamp: `StartAnimation`, `StartAnimationTo`, `StartAnimationFromValue`, `Ready`, `AnimateToValue` and `SetValueInstant` clamp with the corrected `ClampToMaxDigits`. Where the value lies outside the digit budget they saturate, while the source throws on the null `Logger` (see Findings).
- NumberFormat.FormatWithPadding: requires `n != int.MinValue` on the padded path, where `Math.Abs` throws.
- NumberFormat.ApplyPadding: requires a non-empty delimiter on the padded path, where `Replace("", …)` throws.
- NumberFormat.FormatNumber: promises its round trip only for a delimiter without digits or `-`. Culture-dependent `N0` output is not modelled; the invariant culture is assumed.
- Dafny's `char` counts as one UTF-16 code unit in the label's strings. Only `ProcAddress` models UTF-16 explicitly.
- Pixel contents, `Marshal.Copy`, the Godot texture and RID creation (`TextureCreate`, `TextureRdCreate`, `TextureGetNativeHandle`), `Texture2DUpdate`, and the Vulkan image and backend structures: these are native interop. Only their outcomes are inputs.
- `OpenGlCreateTexture` is never called by `Initialize`, so it is not modelled.
- `NativeLibrary.GetExport` failing for a missing symbol is not modelled. The library handle is taken to export both lookup functions.
- `Free` and `Dispose`: they release native objects and have no modelled state. A disposed texture is not a state of the model.
- `_GetWidth`, `_GetHeight` and `_GetRid` return fields unchanged and are read directly from the model's record.
- Partial updates before an exception: `Run` skips an event whose call would throw as if it never happened. In the source, `StartAnimation` with `int.MinValue` as the start value (no delimiter, a budget) has already set the target, the start and `Value`, killed the tween, freed the timer and stored the start as the value on screen when `Math.Abs` throws in `FormatNumber`. That half-updated state is not modelled.
- Running out of memory in `new SKBitmap` or `new byte[]` is not modelled.
- The demo scenes and `SkiaGodotConverter` are not part of this model.

## Findings

| source | as written | input that shows it | evidently intended | confidence | as-written member | corrected member |
|---|---|---|---|---|---|---|
| Component/DynamicNumberLabel/DynamicNumberLabel.cs:198-212 | `SetValueInstant` kills the tween but leaves the random-mode timer running, so later ticks overwrite the value just set. | Random mode, `StartAnimation(0, 100)`, `SetValueInstant(50)`, then a tick whose candidate rounds to 0: the label shows 0. | Drop the timer as `StopAnimation` does, so the set value stays on screen. | medium, not executed | NumberLabel.SetValueInstantAsWritten | NumberLabel.SetValueInstant |
| Component/DynamicNumberLabel/DynamicNumberLabel.cs:59 | `Logger` is never assigned, and both saturating branches of `ClampToMaxDigits` call `LogWarning` on it, which throws for a null logger. | `MaxDigits = 3`, `SetValueInstant(1000)`: the clamp throws instead of returning 999. | Return the saturated value (logging only if a logger exists). | high, not executed | NumberFormat.ClampToMaxDigitsAsWritten | NumberFormat.ClampToMaxDigits |
| Component/GodotSkia/SkiaCanvasTexture2D.cs:44-47 | The static function-pointer fields call `VkLibrary` in their initialisers. That loads the Vulkan loader during type initialisation, outside `Initialize`'s `try` and before the driver switch. | Driver `d3d12` with a rendering device on a host without a Vulkan loader: the constructor throws `TypeInitializationException` instead of using the CPU bitmap. | Load the library only on the Vulkan path, so that a failure falls back to CPU mode. | medium, not executed | CanvasTexture.InitializeAsWritten | CanvasTexture.Initialize |
