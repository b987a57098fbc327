/** The per-application hook masks of the controller (kmod/vpnhide_ctl.c), and what they mean
    once the kernel has them. */
module HookMasks {
  import opened Types
  import opened Sorting
  import opened PortRules
  import opened PolicyWire
  import opened PolicyDecode
  import opened PolicySnapshot

  const ALL_HOOKS: bv32 := 0xFFFF_FFFF

  /** The masks for UIDs without an override; the port hooks cannot be switched off. */
  function GlobalKernel(cfg: Config): bv32
  {
    if cfg.global.Some? then cfg.global.value.kernelHooks | MANDATORY else ALL_HOOKS
  }

  function GlobalJava(cfg: Config): bv32 { if cfg.global.Some? then cfg.global.value.javaHooks else ALL_HOOKS }

  /** In allowlist mode the hooks that an application names are exceptions. */
  function KernelMask(cfg: Config, raw: bv32): bv32
  {
    (if cfg.allowlist then GlobalKernel(cfg) & !raw else raw) | MANDATORY
  }

  function JavaMask(cfg: Config, raw: bv32): bv32 { if cfg.allowlist then GlobalJava(cfg) & !raw else raw }

  predicate Overrides(a: Option<App>, uid: u32)
  {
    a.Some? && a.value.uid == uid && uid != 0 && (a.value.kernelHooks.Some? || a.value.javaHooks.Some?)
  }

  function MaskOf(cfg: Config, app: App): WireMask
  {
    var kernel := if app.kernelHooks.Some? then app.kernelHooks.value else 0;
    var java := if app.javaHooks.Some? then app.javaHooks.value else 0;
    WireMask(app.uid, KernelMask(cfg, kernel), JavaMask(cfg, java),
             if app.kernelHooks.Some? then 1 else 0, if app.javaHooks.Some? then 1 else 0, 0, 0)
  }

  /** The first of the first `n` applications with this UID that overrides anything. */
  function FirstOverride(apps: seq<Option<App>>, n: nat, uid: u32): (r: Option<App>)
    requires n <= |apps|
    ensures r.Some? ==> Overrides(r, uid)
  {
    if n == 0 then None
    else if FirstOverride(apps, n - 1, uid).Some? then FirstOverride(apps, n - 1, uid)
    else if Overrides(apps[n - 1], uid) then apps[n - 1] else None
  }

  ghost predicate HasMask(masks: seq<WireMask>, uid: u32) { exists i :: 0 <= i < |masks| && masks[i].uid == uid }

  ghost predicate MaskFor(m: WireMask, cfg: Config, n: nat)
    requires n <= |cfg.apps|
  {
    var first := FirstOverride(cfg.apps, n, m.uid);
    first.Some? && m == MaskOf(cfg, first.value)
  }

  /** One mask for each UID with an override, taken from its first application. */
  ghost predicate MasksFor(masks: seq<WireMask>, cfg: Config, n: nat)
    requires n <= |cfg.apps|
  {
    && DistinctBy(masks, MaskUid)
    && (forall i :: 0 <= i < |masks| ==> MaskFor(masks[i], cfg, n))
    && (forall uid: u32 :: FirstOverride(cfg.apps, n, uid).Some? ==> HasMask(masks, uid))
  }

  /** append_app_hook_mask */
  method AppendMask(masks: seq<WireMask>, m: WireMask) returns (r: seq<WireMask>)
    ensures r == if HasMask(masks, m.uid) then masks else masks + [m]
  {
    for i := 0 to |masks|
      invariant forall k :: 0 <= k < i ==> masks[k].uid != m.uid
    {
      if masks[i].uid == m.uid { return masks; }
    }
    return masks + [m];
  }

  /** The loop over the applications that collects the masks. */
  method BuildMasks(cfg: Config) returns (masks: seq<WireMask>)
    ensures AllMasks(masks, cfg)
  {
    masks := [];
    for n := 0 to |cfg.apps|
      invariant MasksFor(masks, cfg, n)
    {
      var a := cfg.apps[n];
      var next := masks;
      if a.Some? && a.value.uid != 0 && (a.value.kernelHooks.Some? || a.value.javaHooks.Some?) {
        next := AppendMask(masks, MaskOf(cfg, a.value));
      }
      OneMore(cfg, n, masks, next);
      masks := next;
    }
  }

  /** What an application adds to the masks. */
  ghost function Extended(cfg: Config, a: Option<App>, masks: seq<WireMask>): seq<WireMask>
  {
    if a.Some? && Overrides(a, a.value.uid) && !HasMask(masks, a.value.uid) then masks + [MaskOf(cfg, a.value)]
    else masks
  }

  lemma OneMore(cfg: Config, n: nat, masks: seq<WireMask>, next: seq<WireMask>)
    requires n < |cfg.apps| && MasksFor(masks, cfg, n) && next == Extended(cfg, cfg.apps[n], masks)
    ensures MasksFor(next, cfg, n + 1)
  {
    var a := cfg.apps[n];
    forall i | 0 <= i < |masks| ensures MaskFor(masks[i], cfg, n + 1) {
      assert MaskFor(masks[i], cfg, n);
    }
    forall uid: u32 | FirstOverride(cfg.apps, n + 1, uid).Some? ensures HasMask(next, uid) {
      if FirstOverride(cfg.apps, n, uid).Some? {
        var i :| 0 <= i < |masks| && masks[i].uid == uid;
        assert next[i].uid == uid;
      } else if !HasMask(masks, uid) {
        assert next[|masks|].uid == uid;
      }
    }
    if next != masks {
      var m := MaskOf(cfg, a.value);
      assert FirstOverride(cfg.apps, n, m.uid).None?;
      assert MaskFor(m, cfg, n + 1);
    }
  }

  // ------------------------------------------------------------------ meaning

  function OverrideOf(cfg: Config, uid: u32): Option<App> { FirstOverride(cfg.apps, |cfg.apps|, uid) }

  ghost predicate AllMasks(masks: seq<WireMask>, cfg: Config) { MasksFor(masks, cfg, |cfg.apps|) }

  predicate KernelOverridden(cfg: Config, uid: u32)
  {
    OverrideOf(cfg, uid).Some? && OverrideOf(cfg, uid).value.kernelHooks.Some?
  }

  /** Which kernel hooks are active for a UID, from the configuration alone. */
  function SpecKernelMask(cfg: Config, uid: u32): bv32
  {
    if KernelOverridden(cfg, uid) then KernelMask(cfg, OverrideOf(cfg, uid).value.kernelHooks.value)
    else GlobalKernel(cfg) | MANDATORY
  }

  predicate JavaOverridden(cfg: Config, uid: u32)
  {
    OverrideOf(cfg, uid).Some? && OverrideOf(cfg, uid).value.javaHooks.Some?
  }

  /** Which Java hooks are active for a UID, from the configuration alone. */
  function SpecJavaMask(cfg: Config, uid: u32): bv32
  {
    if JavaOverridden(cfg, uid) then JavaMask(cfg, OverrideOf(cfg, uid).value.javaHooks.value) else GlobalJava(cfg)
  }

  /** The status report lists this Java mask for the UID. */
  ghost predicate ListsJava(s: Snapshot, uid: u32, m: bv32)
  {
    exists i :: 0 <= i < |s.masks| && s.masks[i].uid == uid && s.masks[i].hasJava != 0 && s.masks[i].java == m
  }

  lemma MandatoryTwice(m: bv32)
    ensures (m | MANDATORY) | MANDATORY == m | MANDATORY
  {
  }

  lemma MaskIsOk(cfg: Config, app: App)
    requires Overrides(Some(app), app.uid)
    ensures MaskOk(MaskOf(cfg, app)) && WithMandatory(MaskOf(cfg, app)) == MaskOf(cfg, app)
  {
    if app.kernelHooks.Some? {
      MandatoryTwice(if cfg.allowlist then GlobalKernel(cfg) & !app.kernelHooks.value else app.kernelHooks.value);
    }
  }

  lemma MasksAreOk(masks: seq<WireMask>, cfg: Config)
    requires AllMasks(masks, cfg)
    ensures AllMandatory(masks) == masks && forall i :: 0 <= i < |masks| ==> MaskOk(masks[i])
  {
    forall i | 0 <= i < |masks| ensures MaskOk(masks[i]) && WithMandatory(masks[i]) == masks[i] {
      assert MaskFor(masks[i], cfg, |cfg.apps|);
      MaskIsOk(cfg, OverrideOf(cfg, masks[i].uid).value);
    }
  }

  /** A mask says what the configuration says for its UID. */
  ghost predicate Reads(w: WireMask, cfg: Config)
  {
    && (w.hasKernel != 0 <==> KernelOverridden(cfg, w.uid))
    && (w.hasKernel != 0 ==> w.kernel == SpecKernelMask(cfg, w.uid))
    && (w.hasJava != 0 <==> JavaOverridden(cfg, w.uid)) && (w.hasJava != 0 ==> w.java == SpecJavaMask(cfg, w.uid))
  }

  lemma MaskReads(cfg: Config, w: WireMask)
    requires MaskFor(w, cfg, |cfg.apps|)
    ensures Reads(w, cfg)
  {
  }

  /** The lookups find the mask of the first application with an override. */
  lemma MaskFound(cfg: Config, masks: seq<WireMask>, sorted: seq<WireMask>, uid: u32)
    requires AllMasks(masks, cfg) && SortedForm(sorted, masks, MaskUid)
    ensures KernelOverridden(cfg, uid) || JavaOverridden(cfg, uid) ==> HasMask(sorted, uid)
    ensures forall i :: 0 <= i < |sorted| ==> Reads(sorted[i], cfg)
  {
    PermutesMembers(sorted, masks);
    forall i | 0 <= i < |sorted| ensures Reads(sorted[i], cfg) {
      assert sorted[i] in masks;
      MaskReads(cfg, sorted[i]);
    }
    if KernelOverridden(cfg, uid) || JavaOverridden(cfg, uid) {
      assert HasMask(masks, uid);
      var k :| 0 <= k < |masks| && masks[k].uid == uid;
      assert masks[k] in sorted;
    }
  }

  lemma EffectiveFrom(s: Snapshot, uid: u32, m: bv32, overridden: bool, spec: bv32)
    requires forall i :: 0 <= i < |s.masks| && s.masks[i].uid == uid ==> overridden == (s.masks[i].hasKernel != 0)
    requires forall i :: 0 <= i < |s.masks| && s.masks[i].uid == uid && overridden ==> s.masks[i].kernel == spec
    requires if overridden then HasMask(s.masks, uid) else s.active == spec
    ensures EffectiveMask(s, uid, m) <==> m == spec
  {
  }

  /** A snapshot that holds these masks and the global mask gives every UID its hooks. */
  lemma MasksImplement(cfg: Config, masks: seq<WireMask>, s: Snapshot, uid: u32, m: bv32)
    requires AllMasks(masks, cfg) && SortedForm(s.masks, masks, MaskUid)
    requires s.active == GlobalKernel(cfg) | MANDATORY
    ensures EffectiveMask(s, uid, m) <==> m == SpecKernelMask(cfg, uid)
  {
    MaskFound(cfg, masks, s.masks, uid);
    EffectiveFrom(s, uid, m, KernelOverridden(cfg, uid), SpecKernelMask(cfg, uid));
  }

  /** The report lists a Java mask for exactly the UIDs that override it, and the right one. */
  lemma JavaImplements(cfg: Config, masks: seq<WireMask>, s: Snapshot, uid: u32, m: bv32)
    requires AllMasks(masks, cfg) && SortedForm(s.masks, masks, MaskUid)
    ensures ListsJava(s, uid, m) <==> JavaOverridden(cfg, uid) && m == SpecJavaMask(cfg, uid)
  {
    MaskFound(cfg, masks, s.masks, uid);
    if JavaOverridden(cfg, uid) && m == SpecJavaMask(cfg, uid) {
      var i :| 0 <= i < |s.masks| && s.masks[i].uid == uid;
      assert Reads(s.masks[i], cfg);
    }
  }
}
