/**
 * How a material pass's GS blend and depth settings become WebGL blend and
 * depth state (`apply_blend_equation`), as a function returning the
 * configuration the sequence of GL setter calls leaves behind.
 *
 * The GS computes `(A - B) * C + D` per colour channel, with A, B and D
 * chosen among source colour, destination colour and zero, and C among
 * source alpha, destination alpha and a fixed value. Alphas are taken as
 * already normalised (the fixed value is passed through unchanged).
 */
module Blend {
  import opened Wrappers

  datatype ColorParam = RgbSource | RgbDest | Zero
  datatype AlphaParam = AlphaSource | AlphaDest | Fix
  datatype DepthMethod = Never | Always | GEqual | Greater

  datatype Pass = Pass(
    depthTestOn: bool, depthMethod: DepthMethod,
    a: ColorParam, b: ColorParam, c: AlphaParam, d: ColorParam,
    fixAlpha: real)

  datatype DepthFunc = Less | LEqual | NeverPass
  datatype Factor =
    | FZero | FOne | SrcAlpha | DstAlpha | ConstantAlpha
    | OneMinusSrcAlpha | OneMinusDstAlpha | OneMinusConstantAlpha
  datatype Equation = Add | Subtract | ReverseSubtract

  /** `blendFuncSeparate` and `blendEquationSeparate`, or blending disabled. */
  datatype BlendState =
    | Off
    | On(srcRgb: Factor, dstRgb: Factor, srcAlpha: Factor, dstAlpha: Factor, eqRgb: Equation, eqAlpha: Equation)

  /**
   * The state left behind: depth test (None when disabled), blending, the
   * blend colour's alpha if it was set, and the function's boolean result.
   */
  datatype Config = Config(depth: Option<DepthFunc>, blend: BlendState, constantAlpha: Option<real>, compatible: bool)

  function DepthOf(p: Pass): Option<DepthFunc> {
    if !p.depthTestOn || p.depthMethod == Always then None
    else if p.depthMethod == GEqual then Some(LEqual)
    else if p.depthMethod == Greater then Some(Less)
    else Some(NeverPass)
  }

  function AlphaFactor(c: AlphaParam): Factor {
    if c == AlphaSource then SrcAlpha else if c == AlphaDest then DstAlpha else ConstantAlpha
  }

  function OneMinusAlphaFactor(c: AlphaParam): Factor {
    if c == AlphaSource then OneMinusSrcAlpha else if c == AlphaDest then OneMinusDstAlpha else OneMinusConstantAlpha
  }

  /** `blendFunc(src, dst)`: the same factors for colour and alpha. */
  function Both(src: Factor, dst: Factor, eq: Equation): BlendState {
    On(src, dst, src, dst, eq, eq)
  }

  /** `apply_blend_equation`. */
  function ApplyBlendEquation(p: Pass): (cfg: Config)
    ensures cfg.depth.None? <==> !p.depthTestOn || p.depthMethod == Always
    ensures cfg.blend.Off? <==> p.a == p.b && p.d == RgbSource
    ensures cfg.constantAlpha.Some? <==> p.a != p.b && p.c == Fix
    ensures cfg.constantAlpha.Some? ==> cfg.constantAlpha.value == p.fixAlpha
  {
    var depth := DepthOf(p);
    if p.a == p.b && p.d == RgbSource then Config(depth, Off, None, true)
    else if p.a == p.b then
      var blend :=
        if p.d == RgbSource then Both(FOne, FZero, Add)
        else if p.d == RgbDest then On(FZero, FOne, FOne, FZero, Add, Add)
        else On(FZero, FZero, FOne, FZero, Add, Add);
      Config(depth, blend, None, true)
    else
      var alpha := AlphaFactor(p.c);
      var oneMinus := OneMinusAlphaFactor(p.c);
      var constant := if p.c == Fix then Some(p.fixAlpha) else None;
      if p.b == p.d then
        var src := if p.a == RgbSource then alpha else if p.b == RgbSource then oneMinus else FZero;
        var dst := if p.a == RgbDest then alpha else if p.b == RgbDest then oneMinus else FZero;
        Config(depth, On(src, dst, FOne, FZero, Add, Add), constant, true)
      else if p.b == Zero && p.a != p.d then
        var src := if p.a == RgbSource then alpha else if p.d == RgbSource then FOne else FZero;
        var dst := if p.a == RgbDest then alpha else if p.d == RgbDest then FOne else FZero;
        Config(depth, On(src, dst, FOne, FZero, Add, Add), constant, true)
      else if p.a == Zero then
        var src := if p.b == RgbSource then alpha else if p.d == RgbSource then FOne else FZero;
        var dst := if p.b == RgbDest then alpha else if p.d == RgbDest then FOne else FZero;
        var eq := if p.b == RgbSource then ReverseSubtract else Subtract;
        Config(depth, On(src, dst, FOne, FZero, eq, Add), constant, true)
      else if p.d == Zero then
        var eq := if p.b == RgbSource then ReverseSubtract else Subtract;
        Config(depth, On(alpha, alpha, FOne, FZero, eq, Add), constant, true)
      else
        Config(depth, Both(FOne, FZero, Add), constant, false)
  }

  // ---------------------------------------------------------------------
  // What the two pipelines compute

  /** A pixel being drawn over one already in the framebuffer. */
  datatype Pixel = Pixel(cs: real, cd: real, as_: real, ad: real)

  function ColorValue(x: ColorParam, px: Pixel): real {
    match x
    case RgbSource => px.cs
    case RgbDest => px.cd
    case Zero => 0.0
  }

  function AlphaValue(c: AlphaParam, px: Pixel, fix: real): real {
    match c
    case AlphaSource => px.as_
    case AlphaDest => px.ad
    case Fix => fix
  }

  /** The GS blend: `(A - B) * C + D`. */
  function GsColor(p: Pass, px: Pixel): real {
    (ColorValue(p.a, px) - ColorValue(p.b, px)) * AlphaValue(p.c, px, p.fixAlpha) + ColorValue(p.d, px)
  }

  function FactorValue(f: Factor, px: Pixel, constant: real): real {
    match f
    case FZero => 0.0
    case FOne => 1.0
    case SrcAlpha => px.as_
    case DstAlpha => px.ad
    case ConstantAlpha => constant
    case OneMinusSrcAlpha => 1.0 - px.as_
    case OneMinusDstAlpha => 1.0 - px.ad
    case OneMinusConstantAlpha => 1.0 - constant
  }

  function Combine(eq: Equation, s: real, d: real): real {
    match eq
    case Add => s + d
    case Subtract => s - d
    case ReverseSubtract => d - s
  }

  /**
   * What WebGL writes, before clamping, for colour and for alpha. The blend
   * colour's alpha is the one set, or whatever it was before (`prior`).
   */
  function GlOutput(cfg: Config, px: Pixel, prior: real): (real, real) {
    var constant := cfg.constantAlpha.GetOr(prior);
    match cfg.blend
    case Off => (px.cs, px.as_)
    case On(sr, dr, sa, da, er, ea) =>
      (Combine(er, px.cs * FactorValue(sr, px, constant), px.cd * FactorValue(dr, px, constant)),
       Combine(ea, px.as_ * FactorValue(sa, px, constant), px.ad * FactorValue(da, px, constant)))
  }

  /** The alpha factor chosen for C evaluates to C's value once the blend colour is set for Fix. */
  lemma AlphaFactors(p: Pass, px: Pixel, prior: real)
    requires p.a != p.b
    ensures var constant := ApplyBlendEquation(p).constantAlpha.GetOr(prior);
            var alpha := AlphaValue(p.c, px, p.fixAlpha);
            FactorValue(AlphaFactor(p.c), px, constant) == alpha &&
            FactorValue(OneMinusAlphaFactor(p.c), px, constant) == 1.0 - alpha
  {
  }

  /** Case B == D: `(A - B) * C + B` is `A * C + B * (1 - C)`. */
  lemma BlendCaseBD(p: Pass, px: Pixel, prior: real)
    requires p.a != p.b && p.b == p.d
    ensures GlOutput(ApplyBlendEquation(p), px, prior).0 == GsColor(p, px)
  {
    AlphaFactors(p, px, prior);
    var alpha := AlphaValue(p.c, px, p.fixAlpha);
    assert GsColor(p, px) == ColorValue(p.a, px) * alpha + ColorValue(p.b, px) * (1.0 - alpha);
  }

  /** Case B == 0: `A * C + D`. */
  lemma BlendCaseBZero(p: Pass, px: Pixel, prior: real)
    requires p.a != p.b && p.b != p.d && p.b == Zero && p.a != p.d
    ensures GlOutput(ApplyBlendEquation(p), px, prior).0 == GsColor(p, px)
  {
    AlphaFactors(p, px, prior);
  }

  /** Case A == 0: `D - B * C`. */
  lemma BlendCaseAZero(p: Pass, px: Pixel, prior: real)
    requires p.a != p.b && p.b != p.d && !(p.b == Zero && p.a != p.d) && p.a == Zero
    ensures GlOutput(ApplyBlendEquation(p), px, prior).0 == GsColor(p, px)
  {
    AlphaFactors(p, px, prior);
  }

  /** Case D == 0: `A * C - B * C`. */
  lemma BlendCaseDZero(p: Pass, px: Pixel, prior: real)
    requires p.a != p.b && p.b != p.d && !(p.b == Zero && p.a != p.d) && p.a != Zero && p.d == Zero
    ensures GlOutput(ApplyBlendEquation(p), px, prior).0 == GsColor(p, px)
  {
    AlphaFactors(p, px, prior);
    var alpha := AlphaValue(p.c, px, p.fixAlpha);
    assert GsColor(p, px) == ColorValue(p.a, px) * alpha - ColorValue(p.b, px) * alpha;
  }

  /**
   * Whenever the function reports success, the WebGL state reproduces the GS
   * colour equation exactly and passes the source alpha through, whatever
   * the pixel and whatever blend colour was set before.
   */
  lemma BlendMatchesGs(p: Pass, px: Pixel, prior: real)
    requires ApplyBlendEquation(p).compatible
    ensures GlOutput(ApplyBlendEquation(p), px, prior).0 == GsColor(p, px)
    ensures GlOutput(ApplyBlendEquation(p), px, prior).1 == px.as_
  {
    if p.a == p.b {
    } else if p.b == p.d {
      BlendCaseBD(p, px, prior);
    } else if p.b == Zero && p.a != p.d {
      BlendCaseBZero(p, px, prior);
    } else if p.a == Zero {
      BlendCaseAZero(p, px, prior);
    } else {
      BlendCaseDZero(p, px, prior);
    }
  }

  /** The function gives up exactly on `(A - B) * C + A` with A not zero, which WebGL cannot express. */
  lemma IncompatibleExactly(p: Pass)
    ensures !ApplyBlendEquation(p).compatible <==> p.a != p.b && p.a == p.d && p.a != Zero
  {
  }

  /** GS depth test: a larger Z is nearer. */
  predicate GsDepthPasses(m: DepthMethod, z: int, stored: int) {
    match m
    case Never => false
    case Always => true
    case GEqual => z >= stored
    case Greater => z > stored
  }

  /** WebGL depth test, on depths where smaller is nearer; a disabled test passes everything. */
  predicate GlDepthPasses(f: Option<DepthFunc>, depth: int, stored: int) {
    match f
    case None => true
    case Some(LEqual) => depth <= stored
    case Some(Less) => depth < stored
    case Some(NeverPass) => false
  }

  /** With depth the negation of GS Z, the WebGL depth test accepts exactly the fragments the GS would. */
  lemma DepthMatchesGs(p: Pass, z: int, stored: int)
    ensures GlDepthPasses(ApplyBlendEquation(p).depth, -z, -stored) <==>
            !p.depthTestOn || GsDepthPasses(p.depthMethod, z, stored)
  {
  }
}
