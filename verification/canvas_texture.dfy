/**
  `SkiaCanvasTexture2D` with the host and driver calls taken out: the
  dimensions it is built with, the choice between drawing straight into the
  GPU texture (Vulkan only) and drawing into a CPU bitmap that is copied
  over, the fallback from the first to the second, and what `UpdateTexture`
  and `GetImage` do in each mode. What the host answers (the driver name,
  whether the Vulkan loader loads, whether the GPU context and surface are
  created) is an input.
 */
module CanvasTexture {
  import opened Outcomes
  import VulkanLoader

  const DEFAULT_SIZE: int := 512

  datatype ColorType = Rgba8888
  datatype AlphaType = Premul
  datatype ImageFormat = Rgba8

  /** The CPU-side bitmap; its pixels are not modelled. */
  datatype Bitmap = Bitmap(width: int, height: int, colorType: ColorType, alphaType: AlphaType)

  /** `SKBitmap.ByteCount`: four bytes a pixel, rows not padded. */
  function ByteCount(b: Bitmap): int {
    b.width * 4 * b.height
  }

  /** An engine image: `Image.CreateEmpty`, or `Image.CreateFromData` with the given number of bytes. */
  datatype HostImage =
    | EmptyImage(width: int, height: int, mipmaps: bool, format: ImageFormat)
    | DataImage(width: int, height: int, mipmaps: bool, format: ImageFormat, byteCount: int)

  /** `ToGodotImage` of a bitmap: its dimensions and exactly its bytes, as RGBA8 without mipmaps. */
  function ImageOf(b: Bitmap): HostImage {
    DataImage(b.width, b.height, false, Rgba8, ByteCount(b))
  }

  /** The `_grContext` field: never set, holding a live context, or holding a disposed one. */
  datatype ContextState = NoContext | LiveContext | DisposedContext

  /** The `_skCanvas` field: unset, drawing into the GPU surface, or drawing into the bitmap. */
  datatype Canvas = NoCanvas | SurfaceCanvas | BitmapCanvas

  datatype Texture = Texture(
    width: int,
    height: int,
    gpuMode: bool,
    dirty: bool,
    context: ContextState,
    canvas: Canvas,
    bitmap: Option<Bitmap>)

  /** How the host answers the GPU set-up: does the context come back, does the surface. */
  datatype GpuOutcome = GpuOutcome(contextCreated: bool, surfaceCreated: bool)

  /**
    What the host answers: the rendering driver's name, whether a rendering
    device exists, whether the Vulkan loader search finds a library (see
    `LoaderLoads`), and how the GPU set-up goes.
   */
  datatype Host = Host(
    driverName: string,
    hasRenderingDevice: bool,
    vulkanLibraryLoads: bool,
    gpu: GpuOutcome)

  /**
    The `vulkanLibraryLoads` answer of a host on `platform` whose loader
    answers `load`: `TryLoadVulkanLibrary` returns a handle, which happens
    exactly when one of the platform's candidates loads.
   */
  function LoaderLoads(platform: VulkanLoader.Platform, fallbackPathSet: bool,
                       load: VulkanLoader.Candidate -> Option<int>): (r: bool)
    ensures r <==> VulkanLoader.SomeLoads(VulkanLoader.Candidates(platform, fallbackPathSet), load)
  {
    VulkanLoader.TryLoadVulkanLibraryOrder(platform, fallbackPathSet, load);
    VulkanLoader.TryLoadVulkanLibrary(platform, fallbackPathSet, load).handle.Some?
  }

  datatype Failure =
    | NullRenderingDevice
    | TypeInitializationFailed
    | VulkanLibraryMissing
    | ContextCreationFailed
    | SurfaceCreationFailed

  /** What an attempt leaves behind: the texture's fields, and the exception if it threw. */
  datatype Attempt = Attempt(state: Texture, failure: Option<Failure>)

  /** The fields before `Initialize`: field initialisers give `Dirty` and `IsGpuMode` true. */
  function Blank(width: int, height: int): Texture {
    Texture(width, height, true, true, NoContext, NoCanvas, None)
  }

  /** `UseImageCopy`: a Width x Height premultiplied RGBA bitmap with a canvas on it, CPU mode. */
  function UseImageCopy(t: Texture): (r: Texture)
    ensures !r.gpuMode && r.canvas == BitmapCanvas
    ensures r.bitmap == Some(Bitmap(t.width, t.height, Rgba8888, Premul))
    ensures r.(gpuMode := t.gpuMode, canvas := t.canvas, bitmap := t.bitmap) == t
  {
    t.(bitmap := Some(Bitmap(t.width, t.height, Rgba8888, Premul)), canvas := BitmapCanvas, gpuMode := false)
  }

  /**
    `VulkanCreateTexture`, preceded by resolving the Vulkan loader (which
    the source does earlier, see `InitializeAsWritten`). A null context
    throws; a null surface disposes the context and throws; only success
    sets the canvas and GPU mode.
   */
  function VulkanCreateTexture(t: Texture, libraryLoads: bool, gpu: GpuOutcome): (a: Attempt)
    ensures a.failure.None? <==> libraryLoads && gpu.contextCreated && gpu.surfaceCreated
    ensures a.failure.None? ==> a.state == t.(context := LiveContext, canvas := SurfaceCanvas, gpuMode := true)
    ensures a.failure.Some? ==> a.state.canvas == t.canvas && a.state.gpuMode == t.gpuMode
    ensures libraryLoads && !gpu.contextCreated ==>
      a.failure == Some(ContextCreationFailed) && a.state == t.(context := NoContext)
    ensures libraryLoads && gpu.contextCreated && !gpu.surfaceCreated ==>
      a.failure == Some(SurfaceCreationFailed) && a.state == t.(context := DisposedContext)
  {
    if !libraryLoads then Attempt(t, Some(VulkanLibraryMissing))
    else if !gpu.contextCreated then Attempt(t.(context := NoContext), Some(ContextCreationFailed))
    else if !gpu.surfaceCreated then Attempt(t.(context := DisposedContext), Some(SurfaceCreationFailed))
    else Attempt(t.(context := LiveContext, canvas := SurfaceCanvas, gpuMode := true), None)
  }

  /**
    `Initialize`: without a rendering device the texture cannot even be
    allocated; on "vulkan" the GPU path is tried and any exception falls
    back to the CPU bitmap; any other driver goes straight to the bitmap.
   */
  function Initialize(t: Texture, host: Host): (r: Result<Texture, Failure>)
    ensures r.Err? <==> !host.hasRenderingDevice
    ensures r.Ok? ==> r.value.width == t.width && r.value.height == t.height && r.value.dirty == t.dirty
    ensures r.Ok? ==> (r.value.gpuMode <==>
      host.driverName == "vulkan" && host.vulkanLibraryLoads && host.gpu.contextCreated && host.gpu.surfaceCreated)
    ensures r.Ok? && !r.value.gpuMode ==> r.value == UseImageCopy(r.value)
  {
    if !host.hasRenderingDevice then Err(NullRenderingDevice)
    else if host.driverName == "vulkan" then
      var a := VulkanCreateTexture(t, host.vulkanLibraryLoads, host.gpu);
      if a.failure.None? then Ok(a.state) else Ok(UseImageCopy(a.state))
    else Ok(UseImageCopy(t))
  }

  /**
    `Initialize` as the class is written: the static function-pointer
    fields load the Vulkan loader while the type initialises, which happens
    before the first static field (the rendering device) is read, so outside
    the `try` and whatever the driver.
   */
  function InitializeAsWritten(t: Texture, host: Host): (r: Result<Texture, Failure>)
    ensures !host.vulkanLibraryLoads ==> r == Err(TypeInitializationFailed)
    ensures host.vulkanLibraryLoads ==> r == Initialize(t, host)
  {
    if !host.vulkanLibraryLoads then Err(TypeInitializationFailed)
    else Initialize(t, host)
  }

  /** `new SkiaCanvasTexture2D(width, height)`: each dimension is raised to at least 1. */
  function NewTexture(width: int, height: int, host: Host): (r: Result<Texture, Failure>)
    ensures r.Ok? ==> r.value.width == (if width < 1 then 1 else width)
    ensures r.Ok? ==> r.value.height == (if height < 1 then 1 else height)
    ensures r.Ok? ==> r.value.width >= 1 && r.value.height >= 1 && r.value.dirty
  {
    Initialize(Blank(if width < 1 then 1 else width, if height < 1 then 1 else height), host)
  }

  /** `new SkiaCanvasTexture2D()`: 512 x 512. */
  function NewDefaultTexture(host: Host): (r: Result<Texture, Failure>)
    ensures r.Ok? ==> r.value.width == DEFAULT_SIZE && r.value.height == DEFAULT_SIZE && r.value.dirty
  {
    Initialize(Blank(DEFAULT_SIZE, DEFAULT_SIZE), host)
  }

  /** The shape of a texture once a constructor has returned: exactly one mode, fully set up. */
  predicate WellFormed(t: Texture) {
    && t.width >= 1 && t.height >= 1 && t.dirty
    && (t.gpuMode ==> t.context == LiveContext && t.canvas == SurfaceCanvas && t.bitmap.None?)
    && (!t.gpuMode ==> t.canvas == BitmapCanvas && t.bitmap == Some(Bitmap(t.width, t.height, Rgba8888, Premul)))
  }

  /** What `UpdateTexture` does to the engine side. */
  datatype SyncEffect = Flushed | Nothing | Uploaded(image: HostImage)

  /**
    `UpdateTexture`: in GPU mode flush the context (if any) and copy
    nothing; in CPU mode without a bitmap do nothing; otherwise push the
    bitmap's bytes as an RGBA8 image. The texture's own fields, `Dirty`
    included, are left as they are.
   */
  function UpdateTexture(t: Texture): (e: SyncEffect)
    ensures t.gpuMode ==> !e.Uploaded?
    ensures t.gpuMode ==> (e == Flushed <==> t.context != NoContext)
    ensures !t.gpuMode && t.bitmap.None? ==> e == Nothing
    ensures !t.gpuMode && t.bitmap.Some? ==>
      e.Uploaded? && e.image.DataImage? && e.image.format == Rgba8 && !e.image.mipmaps
      && e.image.width == t.bitmap.value.width && e.image.height == t.bitmap.value.height
      && e.image.byteCount == ByteCount(t.bitmap.value)
  {
    if t.gpuMode then (if t.context != NoContext then Flushed else Nothing)
    else if t.bitmap.None? then Nothing
    else Uploaded(ImageOf(t.bitmap.value))
  }

  /**
    `GetImage`: the GPU surface's snapshot (given as the bitmap it reads back
    into) or the CPU bitmap; when neither is there, an empty Width x Height
    RGBA8 image.
   */
  function GetImage(t: Texture, snapshot: Bitmap): (img: HostImage)
    ensures (t.gpuMode && t.canvas != SurfaceCanvas) || (!t.gpuMode && t.bitmap.None?) ==>
      img == EmptyImage(t.width, t.height, false, Rgba8)
    ensures t.gpuMode && t.canvas == SurfaceCanvas ==> img == ImageOf(snapshot)
    ensures !t.gpuMode && t.bitmap.Some? ==> img == ImageOf(t.bitmap.value)
  {
    if t.gpuMode then
      if t.canvas == SurfaceCanvas then ImageOf(snapshot) else EmptyImage(t.width, t.height, false, Rgba8)
    else if t.bitmap.Some? then ImageOf(t.bitmap.value)
    else EmptyImage(t.width, t.height, false, Rgba8)
  }

  /** `MarkDirty`. */
  function MarkDirty(t: Texture): (r: Texture)
    ensures r.dirty && r.(dirty := t.dirty) == t
  {
    t.(dirty := true)
  }

  /**
    The public calls that can follow construction: the three methods and
    the `Width` and `Height` setters, which store any value as it is.
   */
  datatype Call = Update | Mark | Snapshot(snapshot: Bitmap) | SetWidth(w: int) | SetHeight(h: int)

  function Apply(t: Texture, c: Call): Texture {
    match c
    case Mark => MarkDirty(t)
    case SetWidth(w) => t.(width := w)
    case SetHeight(h) => t.(height := h)
    case _ => t
  }

  /** No call in `cs` assigns `Width` or `Height`. */
  predicate KeepsSize(cs: seq<Call>) {
    forall i :: 0 <= i < |cs| ==> !cs[i].SetWidth? && !cs[i].SetHeight?
  }

  /** The width the last `SetWidth` in `cs` assigned, or `w0` when there is none. */
  function LastWidth(cs: seq<Call>, w0: int): int
    decreases |cs|
  {
    if |cs| == 0 then w0
    else if cs[|cs| - 1].SetWidth? then cs[|cs| - 1].w
    else LastWidth(cs[..|cs| - 1], w0)
  }

  /** The height the last `SetHeight` in `cs` assigned, or `h0` when there is none. */
  function LastHeight(cs: seq<Call>, h0: int): int
    decreases |cs|
  {
    if |cs| == 0 then h0
    else if cs[|cs| - 1].SetHeight? then cs[|cs| - 1].h
    else LastHeight(cs[..|cs| - 1], h0)
  }

  /** Reading the calls from the front: the first call only changes the width the rest start from. */
  lemma {:induction false} LastWidthFromFront(cs: seq<Call>, w0: int)
    requires |cs| > 0
    ensures LastWidth(cs, w0) == LastWidth(cs[1..], if cs[0].SetWidth? then cs[0].w else w0)
    decreases |cs|
  {
    var n := |cs|;
    if n > 1 && !cs[n - 1].SetWidth? {
      LastWidthFromFront(cs[..n - 1], w0);
      assert cs[..n - 1][1..] == cs[1..][..n - 2];
    }
  }

  /** Reading the calls from the front: the first call only changes the height the rest start from. */
  lemma {:induction false} LastHeightFromFront(cs: seq<Call>, h0: int)
    requires |cs| > 0
    ensures LastHeight(cs, h0) == LastHeight(cs[1..], if cs[0].SetHeight? then cs[0].h else h0)
    decreases |cs|
  {
    var n := |cs|;
    if n > 1 && !cs[n - 1].SetHeight? {
      LastHeightFromFront(cs[..n - 1], h0);
      assert cs[..n - 1][1..] == cs[1..][..n - 2];
    }
  }

  /**
    Applies the calls in order. Nothing clears `Dirty`; the mode, the
    canvas, the bitmap and the context never change; the size changes only
    through the setters, and the last one assigned wins.
   */
  function Run(t: Texture, cs: seq<Call>): (r: Texture)
    ensures t.dirty ==> r.dirty
    ensures r.gpuMode == t.gpuMode && r.canvas == t.canvas && r.bitmap == t.bitmap && r.context == t.context
    ensures r.(dirty := t.dirty, width := t.width, height := t.height) == t
    ensures r.width == LastWidth(cs, t.width) && r.height == LastHeight(cs, t.height)
    ensures KeepsSize(cs) ==> r.width == t.width && r.height == t.height
    ensures |cs| > 0 && cs[|cs| - 1].SetWidth? ==> r.width == cs[|cs| - 1].w
    ensures |cs| > 0 && cs[|cs| - 1].SetHeight? ==> r.height == cs[|cs| - 1].h
    decreases |cs|
  {
    if |cs| == 0 then t
    else
      LastWidthFromFront(cs, t.width);
      LastHeightFromFront(cs, t.height);
      assert KeepsSize(cs) ==> KeepsSize(cs[1..]) by {
        if KeepsSize(cs) {
          forall i | 0 <= i < |cs[1..]| ensures !cs[1..][i].SetWidth? && !cs[1..][i].SetHeight? {
            assert cs[1..][i] == cs[i + 1];
          }
        }
      }
      assert |cs| > 1 ==> cs[1..][|cs[1..]| - 1] == cs[|cs| - 1];
      Run(Apply(t, cs[0]), cs[1..])
  }

  /** Every successful construction yields a well-formed texture. */
  lemma ConstructedIsWellFormed(width: int, height: int, host: Host)
    ensures NewTexture(width, height, host).Ok? ==> WellFormed(NewTexture(width, height, host).value)
    ensures NewDefaultTexture(host).Ok? ==> WellFormed(NewDefaultTexture(host).value)
  {
  }

  /**
    Dirty starts true and nothing clears it; the mode, the canvas, the
    bitmap and the context never change after construction; as long as
    nobody assigns `Width` or `Height` nothing changes at all and the
    texture stays well-formed.
   */
  lemma ModeIsFixedAndDirtyStays(width: int, height: int, host: Host, cs: seq<Call>)
    requires NewTexture(width, height, host).Ok?
    ensures var t := NewTexture(width, height, host).value;
      var r := Run(t, cs);
      && r.dirty && r.gpuMode == t.gpuMode && r.canvas == t.canvas
      && r.bitmap == t.bitmap && r.context == t.context
      && (KeepsSize(cs) ==> r == t && WellFormed(r))
  {
    ConstructedIsWellFormed(width, height, host);
  }

  /**
    Assigning `Width` after construction leaves the bitmap behind: a CPU
    texture is no longer well-formed, and `UpdateTexture` still uploads an
    image of the old width while `_GetWidth` reports the new one.
   */
  lemma ResizeLeavesBitmapBehind(t: Texture, w: int)
    requires WellFormed(t) && !t.gpuMode && w != t.width
    ensures var r := Run(t, [SetWidth(w)]);
      && !WellFormed(r)
      && r.width == w
      && UpdateTexture(r).Uploaded? && UpdateTexture(r).image.width == t.width
  {
  }

  /** A driver other than "vulkan" gives CPU mode, whatever the GPU side would have answered. */
  lemma OtherDriverMeansCpu(t: Texture, host: Host, loads: bool, gpu: GpuOutcome)
    requires host.hasRenderingDevice && host.driverName != "vulkan"
    ensures Initialize(t, host) == Ok(UseImageCopy(t))
    ensures Initialize(t, host) == Initialize(t, host.(vulkanLibraryLoads := loads, gpu := gpu))
  {
  }

  /** With a rendering device the (corrected) constructor never throws: every GPU failure falls back to the bitmap. */
  lemma FallbackNeverThrows(width: int, height: int, host: Host)
    requires host.hasRenderingDevice
    ensures NewTexture(width, height, host).Ok?
    ensures !NewTexture(width, height, host).value.gpuMode ==>
      NewTexture(width, height, host).value.bitmap.Some?
  {
  }

  /**
    On a constructed texture `UpdateTexture` is never a no-op: GPU mode
    flushes, CPU mode uploads a Width x Height RGBA8 image of exactly
    `4 * Width * Height` bytes, the same image `GetImage` returns.
   */
  lemma UpdateOnConstructed(t: Texture, snapshot: Bitmap)
    requires WellFormed(t)
    ensures t.gpuMode ==> UpdateTexture(t) == Flushed
    ensures !t.gpuMode ==>
      && UpdateTexture(t) == Uploaded(GetImage(t, snapshot))
      && UpdateTexture(t).image == DataImage(t.width, t.height, false, Rgba8, 4 * t.width * t.height)
  {
  }

  /**
    On a host without the Vulkan loader and with a non-Vulkan driver, the
    constructor as written throws instead of falling back to the bitmap.
   */
  lemma NoVulkanLoaderBreaksFallback()
    ensures var host := Host("d3d12", true, false, GpuOutcome(true, true));
      && InitializeAsWritten(Blank(64, 64), host).Err?
      && Initialize(Blank(64, 64), host) == Ok(UseImageCopy(Blank(64, 64)))
  {
  }

  /** The lazily filled driver-handle fields (`??=`): nothing cached, or the first answer. */
  datatype Lazy<T> = Unresolved | Resolved(value: T)

  /** What a read returns (`None` for null), what is cached afterwards, and whether the host was asked. */
  datatype Resolution<T> = Resolution(value: Option<T>, cache: Lazy<T>, queried: bool)

  /**
    Read a cached handle, asking the host (whose answer is `answer`, `None`
    for null) only when nothing is cached yet. A null answer is returned
    but not cached, so the next read asks again.
   */
  function Resolve<T>(cache: Lazy<T>, answer: Option<T>): (r: Resolution<T>)
    ensures r.queried <==> cache.Unresolved?
    ensures cache.Resolved? ==> r.value == Some(cache.value) && r.cache == cache
    ensures cache.Unresolved? ==> r.value == answer
    ensures cache.Unresolved? && answer.None? ==> r.cache == Unresolved
    ensures cache.Unresolved? && answer.Some? ==> r.cache == Resolved(answer.value)
  {
    match cache
    case Unresolved =>
      (match answer
       case None => Resolution(None, Unresolved, true)
       case Some(v) => Resolution(answer, Resolved(v), true))
    case Resolved(v) => Resolution(Some(v), cache, false)
  }

  /** A handle the host did supply is asked for once: a second read returns it without asking again. */
  lemma ResolvedOnce<T>(cache: Lazy<T>, first: Option<T>, second: Option<T>)
    requires cache.Resolved? || first.Some?
    ensures var r1 := Resolve(cache, first);
      var r2 := Resolve(r1.cache, second);
      !r2.queried && r2.value == r1.value && r2.cache == r1.cache
  {
  }

  /** The cache after one read per answer, in order. */
  function ReadAll<T>(cache: Lazy<T>, answers: seq<Option<T>>): Lazy<T>
    decreases |answers|
  {
    if |answers| == 0 then cache else ReadAll(Resolve(cache, answers[0]).cache, answers[1..])
  }

  /** While the host answers null nothing is cached, so the next read asks it again. */
  lemma {:induction false} NullAnswerAsksAgain<T>(answers: seq<Option<T>>, next: Option<T>)
    requires forall i :: 0 <= i < |answers| ==> answers[i].None?
    ensures ReadAll(Unresolved, answers) == Unresolved
    ensures Resolve(ReadAll(Unresolved, answers), next).queried
    decreases |answers|
  {
    if |answers| > 0 {
      NullAnswerAsksAgain(answers[1..], next);
    }
  }
}
