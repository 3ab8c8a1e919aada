/**
  `GetProcedureAddress`, the callback the GPU context uses to find Vulkan
  entry points: the UTF-16 name is transcoded to UTF-8 into a 128-byte
  stack buffer (127 bytes for the name, one for the terminating NUL), and
  the lookup goes to the device when a device handle is given, to the
  instance otherwise. `Utf8.FromUtf16` is called with its defaults, so an
  unpaired surrogate is replaced by U+FFFD rather than rejected; the only
  way to fail is a name that does not fit.
 */
module ProcAddress {
  import opened Outcomes

  /** One UTF-16 code unit of a .NET string. */
  type CodeUnit = x: int | 0 <= x < 0x1_0000

  type Byte = x: int | 0 <= x < 0x100

  const NAME_CAPACITY: nat := 127

  predicate IsHighSurrogate(u: CodeUnit) {
    0xD800 <= u <= 0xDBFF
  }

  predicate IsLowSurrogate(u: CodeUnit) {
    0xDC00 <= u <= 0xDFFF
  }

  /** UTF-8 of a Unicode scalar value: one to four bytes. */
  function EncodeScalar(c: int): (bs: seq<Byte>)
    requires 0 <= c < 0x11_0000
    ensures 1 <= |bs| <= 4
    ensures (c == 0) <==> (0 in bs)
  {
    if c < 0x80 then [c]
    else if c < 0x800 then [0xC0 + c / 0x40, 0x80 + c % 0x40]
    else if c < 0x1_0000 then [0xE0 + c / 0x1000, 0x80 + (c / 0x40) % 0x40, 0x80 + c % 0x40]
    else [0xF0 + c / 0x4_0000, 0x80 + (c / 0x1000) % 0x40, 0x80 + (c / 0x40) % 0x40, 0x80 + c % 0x40]
  }

  /** The scalar value a surrogate pair stands for. */
  function PairScalar(high: CodeUnit, low: CodeUnit): (c: int)
    requires IsHighSurrogate(high) && IsLowSurrogate(low)
    ensures 0x1_0000 <= c < 0x11_0000
  {
    0x1_0000 + ((high as int) - 0xD800) * 0x400 + ((low as int) - 0xDC00)
  }

  /** The bytes U+FFFD takes: what an unpaired surrogate becomes. */
  const REPLACEMENT: seq<Byte> := [0xEF, 0xBF, 0xBD]

  /** `Utf8.FromUtf16` with replacement of invalid sequences, as a whole-string transcoding. */
  function Utf8(s: seq<CodeUnit>): seq<Byte>
    decreases |s|
  {
    if |s| == 0 then []
    else if IsHighSurrogate(s[0]) && |s| >= 2 && IsLowSurrogate(s[1]) then
      EncodeScalar(PairScalar(s[0], s[1])) + Utf8(s[2..])
    else if IsHighSurrogate(s[0]) || IsLowSurrogate(s[0]) then
      REPLACEMENT + Utf8(s[1..])
    else
      EncodeScalar(s[0]) + Utf8(s[1..])
  }

  /** Every code unit takes between one and three bytes (a surrogate pair four for two). */
  lemma {:induction false} Utf8Length(s: seq<CodeUnit>)
    ensures |s| <= |Utf8(s)| <= 3 * |s|
    decreases |s|
  {
    if |s| > 0 {
      if IsHighSurrogate(s[0]) && |s| >= 2 && IsLowSurrogate(s[1]) {
        Utf8Length(s[2..]);
      } else {
        Utf8Length(s[1..]);
      }
    }
  }

  /** The transcoding has a NUL byte exactly when the name has a NUL code unit. */
  lemma {:induction false} Utf8KeepsNul(s: seq<CodeUnit>)
    ensures (0 in Utf8(s)) <==> (0 in s)
    decreases |s|
  {
    if |s| > 0 {
      if IsHighSurrogate(s[0]) && |s| >= 2 && IsLowSurrogate(s[1]) {
        Utf8KeepsNul(s[2..]);
        assert s == [s[0], s[1]] + s[2..];
      } else {
        Utf8KeepsNul(s[1..]);
        assert s == [s[0]] + s[1..];
      }
    }
  }

  /** A plain ASCII name, which every Vulkan entry point has, is copied byte for byte. */
  lemma {:induction false} AsciiIsCopied(s: seq<CodeUnit>)
    requires forall i :: 0 <= i < |s| ==> s[i] < 0x80
    ensures |Utf8(s)| == |s|
    ensures forall i :: 0 <= i < |s| ==> Utf8(s)[i] == s[i]
    decreases |s|
  {
    if |s| > 0 {
      AsciiIsCopied(s[1..]);
    }
  }

  /** The string a native reader sees in a buffer: everything before the first NUL. */
  function CString(buffer: seq<Byte>): seq<Byte>
    decreases |buffer|
  {
    if |buffer| == 0 || buffer[0] == 0 then [] else [buffer[0]] + CString(buffer[1..])
  }

  lemma {:induction false} CStringOfTerminated(text: seq<Byte>, rest: seq<Byte>)
    requires 0 !in text
    ensures CString(text + [0] + rest) == text
    decreases |text|
  {
    if |text| == 0 {
      assert (text + [0] + rest)[0] == 0;
    } else {
      assert (text + [0] + rest)[1..] == text[1..] + [0] + rest;
      CStringOfTerminated(text[1..], rest);
    }
  }

  datatype ProcError = InvalidProcName

  /** The native lookup the callback ends in, with the buffer it passes. */
  datatype ProcLookup =
    | DeviceLookup(device: int, buffer: seq<Byte>)
    | InstanceLookup(instance: int, buffer: seq<Byte>)

  /**
    `GetProcedureAddress(name, instance, device)`. `stack` is the 128-byte
    buffer as `stackalloc` hands it over: zeroed in practice, unless locals
    initialisation is skipped, but the model leaves its contents free. The
    transcoding writes the first bytes and a NUL goes right after them.
   */
  function GetProcedureAddress(name: seq<CodeUnit>, instance: int, device: int, stack: seq<Byte>): (r: Result<ProcLookup, ProcError>)
    requires |stack| == NAME_CAPACITY + 1
    ensures r.Err? <==> |Utf8(name)| > NAME_CAPACITY
    ensures r.Ok? ==> (r.value.DeviceLookup? <==> device != 0)
    ensures r.Ok? && r.value.DeviceLookup? ==> r.value.device == device
    ensures r.Ok? && r.value.InstanceLookup? ==> r.value.instance == instance
    ensures r.Ok? ==>
      var n := |Utf8(name)|;
      && |r.value.buffer| == NAME_CAPACITY + 1
      && r.value.buffer[..n] == Utf8(name)
      && r.value.buffer[n] == 0
      && r.value.buffer[n + 1..] == stack[n + 1..]
  {
    var encoded := Utf8(name);
    if |encoded| > NAME_CAPACITY then Err(InvalidProcName)
    else
      var buffer := encoded + [0] + stack[|encoded| + 1..];
      if device != 0 then Ok(DeviceLookup(device, buffer)) else Ok(InstanceLookup(instance, buffer))
  }

  /**
    For a name without NUL, the native side reads back exactly the UTF-8 of
    the name, whatever the buffer held before (zeros in practice).
   */
  lemma NativeSideReadsTheName(name: seq<CodeUnit>, instance: int, device: int, stack: seq<Byte>)
    requires |stack| == NAME_CAPACITY + 1 && 0 !in name
    ensures var r := GetProcedureAddress(name, instance, device, stack);
      r.Ok? ==> CString(r.value.buffer) == Utf8(name)
  {
    Utf8KeepsNul(name);
    var encoded := Utf8(name);
    if |encoded| <= NAME_CAPACITY {
      CStringOfTerminated(encoded, stack[|encoded| + 1..]);
    }
  }

  /** An ASCII name is accepted exactly when it has at most 127 characters. */
  lemma AsciiNameFitsIffShort(name: seq<CodeUnit>, instance: int, device: int, stack: seq<Byte>)
    requires |stack| == NAME_CAPACITY + 1
    requires forall i :: 0 <= i < |name| ==> name[i] < 0x80
    ensures GetProcedureAddress(name, instance, device, stack).Ok? <==> |name| <= NAME_CAPACITY
  {
    AsciiIsCopied(name);
  }

  /** Names of up to 42 code units always fit; names of more than 127 never do. */
  lemma ShortNamesFitLongNamesDoNot(name: seq<CodeUnit>, instance: int, device: int, stack: seq<Byte>)
    requires |stack| == NAME_CAPACITY + 1
    ensures |name| <= 42 ==> GetProcedureAddress(name, instance, device, stack).Ok?
    ensures |name| > NAME_CAPACITY ==> GetProcedureAddress(name, instance, device, stack).Err?
  {
    Utf8Length(name);
  }
}
