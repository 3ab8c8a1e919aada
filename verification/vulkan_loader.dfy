/**
  `TryLoadVulkanLibrary`: the Vulkan loader library is looked for under a
  fixed, per-platform list of names and paths, and the first one the host
  manages to load is used. The host's `NativeLibrary.TryLoad` is the
  `load` parameter.
 */
module VulkanLoader {
  import opened Outcomes

  /** The platforms the source tells apart; `OtherPlatform` is Linux, Android and the rest. */
  datatype Platform = Windows | MacOS | IOS | OtherPlatform

  /** A library name (searched for by the runtime) or a path handed to the loader as it is. */
  datatype Candidate = ByName(name: string) | ByPath(path: string)

  /** The candidates tried so far and the handle of the one that loaded, if any. */
  datatype LoadOutcome = LoadOutcome(handle: Option<int>, attempts: seq<Candidate>)

  const FALLBACK_DYLIB: Candidate := ByPath("/usr/local/lib/libvulkan.dylib")

  function Attempt(c: Candidate, load: Candidate -> Option<int>): LoadOutcome {
    LoadOutcome(load(c), [c])
  }

  /** `first || TryLoad(c)`: `c` is only tried when everything before it failed. */
  function OrElse(first: LoadOutcome, c: Candidate, load: Candidate -> Option<int>): LoadOutcome {
    if first.handle.Some? then first else LoadOutcome(load(c), first.attempts + [c])
  }

  /**
    The source's chain of `||`: one name on Windows; on macOS and iOS three
    names, two framework paths and, only while `DYLD_FALLBACK_LIBRARY_PATH`
    is unset, an absolute path; two names elsewhere.
   */
  function TryLoadVulkanLibrary(platform: Platform, fallbackPathSet: bool, load: Candidate -> Option<int>): LoadOutcome {
    if platform == Windows then
      Attempt(ByName("vulkan-1.dll"), load)
    else if platform == MacOS || platform == IOS then
      var tried :=
        OrElse(OrElse(OrElse(OrElse(
          Attempt(ByName("libvulkan.dylib"), load),
          ByName("libvulkan.1.dylib"), load),
          ByName("libMoltenVK.dylib"), load),
          ByPath("vulkan.framework/vulkan"), load),
          ByPath("MoltenVK.framework/MoltenVK"), load);
      if fallbackPathSet then tried else OrElse(tried, FALLBACK_DYLIB, load)
    else
      OrElse(Attempt(ByName("libvulkan.so.1"), load), ByName("libvulkan.so"), load)
  }

  /** The list of candidates a platform offers, in the order they are tried. */
  function Candidates(platform: Platform, fallbackPathSet: bool): seq<Candidate> {
    if platform == Windows then [ByName("vulkan-1.dll")]
    else if platform == MacOS || platform == IOS then
      [ByName("libvulkan.dylib"), ByName("libvulkan.1.dylib"), ByName("libMoltenVK.dylib"),
       ByPath("vulkan.framework/vulkan"), ByPath("MoltenVK.framework/MoltenVK")]
      + (if fallbackPathSet then [] else [FALLBACK_DYLIB])
    else [ByName("libvulkan.so.1"), ByName("libvulkan.so")]
  }

  /** Reference search: try the candidates in order and stop at the first that loads. */
  function FirstLoaded(cs: seq<Candidate>, load: Candidate -> Option<int>): LoadOutcome
    decreases |cs|
  {
    if |cs| == 0 then LoadOutcome(None, [])
    else if load(cs[0]).Some? then LoadOutcome(load(cs[0]), [cs[0]])
    else
      var rest := FirstLoaded(cs[1..], load);
      LoadOutcome(rest.handle, [cs[0]] + rest.attempts)
  }

  lemma {:induction false} FirstLoadedTriesAPrefix(cs: seq<Candidate>, load: Candidate -> Option<int>)
    ensures FirstLoaded(cs, load).attempts <= cs
    ensures FirstLoaded(cs, load).handle.None? ==> FirstLoaded(cs, load).attempts == cs
    decreases |cs|
  {
    if |cs| > 0 && load(cs[0]).None? {
      FirstLoadedTriesAPrefix(cs[1..], load);
      assert cs == [cs[0]] + cs[1..];
    }
  }

  lemma {:induction false} FirstLoadedEarlierAttemptsFailed(cs: seq<Candidate>, load: Candidate -> Option<int>)
    ensures var r := FirstLoaded(cs, load);
      && (forall i :: 0 <= i < |r.attempts| - 1 ==> load(r.attempts[i]).None?)
      && (r.handle.Some? ==> |r.attempts| > 0 && r.handle == load(r.attempts[|r.attempts| - 1]))
    decreases |cs|
  {
    if |cs| > 0 && load(cs[0]).None? {
      FirstLoadedEarlierAttemptsFailed(cs[1..], load);
      var rest := FirstLoaded(cs[1..], load);
      var r := FirstLoaded(cs, load);
      assert forall i :: 1 <= i < |r.attempts| ==> r.attempts[i] == rest.attempts[i - 1];
    }
  }

  predicate SomeLoads(cs: seq<Candidate>, load: Candidate -> Option<int>) {
    exists i :: 0 <= i < |cs| && load(cs[i]).Some?
  }

  lemma {:induction false} FirstLoadedFindsAnyLoadable(cs: seq<Candidate>, load: Candidate -> Option<int>)
    ensures FirstLoaded(cs, load).handle.Some? <==> SomeLoads(cs, load)
    decreases |cs|
  {
    if |cs| > 0 {
      if load(cs[0]).None? {
        FirstLoadedFindsAnyLoadable(cs[1..], load);
        if SomeLoads(cs, load) {
          var i :| 0 <= i < |cs| && load(cs[i]).Some?;
          assert i > 0 && load(cs[1..][i - 1]).Some?;
        }
        if SomeLoads(cs[1..], load) {
          var j :| 0 <= j < |cs[1..]| && load(cs[1..][j]).Some?;
          assert load(cs[j + 1]).Some?;
        }
      } else {
        assert load(cs[0]).Some?;
      }
    }
  }

  /**
    What the search promises: the attempts are a prefix of the candidates,
    all but the last failed, a handle is found exactly when some candidate
    loads, and the handle is the last attempt's. Nothing after the first
    success is tried.
   */
  lemma FirstLoadedStopsAtFirstSuccess(cs: seq<Candidate>, load: Candidate -> Option<int>)
    ensures var r := FirstLoaded(cs, load);
      && r.attempts <= cs
      && (forall i :: 0 <= i < |r.attempts| - 1 ==> load(r.attempts[i]).None?)
      && (r.handle.Some? <==> SomeLoads(cs, load))
      && (r.handle.Some? ==> |r.attempts| > 0 && r.handle == load(r.attempts[|r.attempts| - 1]))
      && (r.handle.None? ==> r.attempts == cs)
  {
    FirstLoadedTriesAPrefix(cs, load);
    FirstLoadedEarlierAttemptsFailed(cs, load);
    FirstLoadedFindsAnyLoadable(cs, load);
  }

  lemma FirstLoadedOfExtension(first: LoadOutcome, cs: seq<Candidate>, c: Candidate, load: Candidate -> Option<int>)
    requires first == FirstLoaded(cs, load)
    ensures OrElse(first, c, load) == FirstLoaded(cs + [c], load)
    decreases |cs|
  {
    if |cs| > 0 {
      assert (cs + [c])[1..] == cs[1..] + [c];
      FirstLoadedOfExtension(FirstLoaded(cs[1..], load), cs[1..], c, load);
    } else {
      assert cs + [c] == [c];
    }
  }

  /** The chain of `||` in the source is exactly the in-order search over the platform's candidates. */
  lemma TryLoadIsFirstSuccess(platform: Platform, fallbackPathSet: bool, load: Candidate -> Option<int>)
    ensures TryLoadVulkanLibrary(platform, fallbackPathSet, load) == FirstLoaded(Candidates(platform, fallbackPathSet), load)
  {
    if platform == Windows {
      assert [ByName("vulkan-1.dll")][1..] == [];
    } else if platform == MacOS || platform == IOS {
      var c0, c1, c2 := ByName("libvulkan.dylib"), ByName("libvulkan.1.dylib"), ByName("libMoltenVK.dylib");
      var c3, c4 := ByPath("vulkan.framework/vulkan"), ByPath("MoltenVK.framework/MoltenVK");
      var a0 := Attempt(c0, load);
      assert a0 == FirstLoaded([c0], load) by {
        assert [c0][1..] == [];
      }
      FirstLoadedOfExtension(a0, [c0], c1, load);
      var a1 := OrElse(a0, c1, load);
      FirstLoadedOfExtension(a1, [c0] + [c1], c2, load);
      var a2 := OrElse(a1, c2, load);
      FirstLoadedOfExtension(a2, [c0] + [c1] + [c2], c3, load);
      var a3 := OrElse(a2, c3, load);
      FirstLoadedOfExtension(a3, [c0] + [c1] + [c2] + [c3], c4, load);
      var a4 := OrElse(a3, c4, load);
      var five := [c0] + [c1] + [c2] + [c3] + [c4];
      assert five == [c0, c1, c2, c3, c4];
      if !fallbackPathSet {
        FirstLoadedOfExtension(a4, five, FALLBACK_DYLIB, load);
      } else {
        assert five + [] == five;
      }
    } else {
      var c0, c1 := ByName("libvulkan.so.1"), ByName("libvulkan.so");
      var a0 := Attempt(c0, load);
      assert a0 == FirstLoaded([c0], load) by {
        assert [c0][1..] == [];
      }
      FirstLoadedOfExtension(a0, [c0], c1, load);
      assert [c0] + [c1] == [c0, c1];
    }
  }

  /** The absolute `/usr/local/lib` path is only ever tried on Apple platforms with `DYLD_FALLBACK_LIBRARY_PATH` unset. */
  lemma FallbackPathOnlyWithoutVariable(platform: Platform, fallbackPathSet: bool, load: Candidate -> Option<int>)
    ensures FALLBACK_DYLIB in TryLoadVulkanLibrary(platform, fallbackPathSet, load).attempts
      ==> (platform == MacOS || platform == IOS) && !fallbackPathSet
  {
    var cs := Candidates(platform, fallbackPathSet);
    TryLoadIsFirstSuccess(platform, fallbackPathSet, load);
    FirstLoadedTriesAPrefix(cs, load);
    var tried := FirstLoaded(cs, load).attempts;
    if FALLBACK_DYLIB in tried {
      var i :| 0 <= i < |tried| && tried[i] == FALLBACK_DYLIB;
      assert cs[i] == FALLBACK_DYLIB;
      FallbackIsAnAppleCandidate(platform, fallbackPathSet);
    }
  }

  /** Only Apple platforms with the variable unset list the absolute path. */
  lemma FallbackIsAnAppleCandidate(platform: Platform, fallbackPathSet: bool)
    ensures FALLBACK_DYLIB in Candidates(platform, fallbackPathSet)
      ==> (platform == MacOS || platform == IOS) && !fallbackPathSet
  {
  }


  /**
    The loader's contract in one place: the platform's candidates are tried
    in order, a handle is returned exactly when one of them loads, it is the
    handle of the first that loads, and nothing after that one is tried.
   */
  lemma TryLoadVulkanLibraryOrder(platform: Platform, fallbackPathSet: bool, load: Candidate -> Option<int>)
    ensures var cs := Candidates(platform, fallbackPathSet);
      var r := TryLoadVulkanLibrary(platform, fallbackPathSet, load);
      && r.attempts <= cs
      && (forall i :: 0 <= i < |r.attempts| - 1 ==> load(r.attempts[i]).None?)
      && (r.handle.Some? <==> SomeLoads(cs, load))
      && (r.handle.Some? ==> |r.attempts| > 0 && r.handle == load(r.attempts[|r.attempts| - 1]))
      && (r.handle.None? ==> r.attempts == cs)
  {
    TryLoadIsFirstSuccess(platform, fallbackPathSet, load);
    FirstLoadedStopsAtFirstSuccess(Candidates(platform, fallbackPathSet), load);
  }
}
