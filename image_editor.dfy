/**
 * The selection logic of the image editor: an image chunk holds a list of
 * locations (image data or colour lookup tables, CLUTs); the editor keeps
 * one selected image location and one selected CLUT, both as indices into
 * that list, with -1 for none.
 *
 * `Array.prototype.filter` followed by `indexOf` on the filtered objects is
 * modelled by lists of indices: every slot of the location list is taken to
 * hold its own object, so an object's identity is its index.
 */
module ImageEditor {
  import opened Wrappers

  /** GS storage formats; the editor distinguishes only these three. */
  datatype Format = PSMCT32 | PSMT4 | PSMT8 | OtherFormat

  datatype Location = Location(location: int, format: Format, width: int, height: int, isClut: bool)

  /** A material pass: the texture locations it samples and the CLUT location it uses. */
  datatype MaterialPass = MaterialPass(textureLocations: seq<int>, clutLocation: int)
  datatype Material = Material(textureFile: int, passes: seq<MaterialPass>)

  /** The filters the editor applies to the location list. */
  datatype Selector = ImageLocs | Cluts | ClutsOfHeight(height: int) | OfFormat(format: Format)

  predicate Selects(sel: Selector, l: Location) {
    match sel
    case ImageLocs => !l.isClut
    case Cluts => l.isClut
    case ClutsOfHeight(h) => l.isClut && l.height == h
    case OfFormat(f) => l.format == f
  }

  /** `locations.filter(...)`, as the indices of the kept locations in order. */
  function Where(locs: seq<Location>, sel: Selector): seq<nat>
    decreases |locs|
  {
    if |locs| == 0 then []
    else Where(locs[..|locs| - 1], sel) + (if Selects(sel, locs[|locs| - 1]) then [|locs| - 1] else [])
  }

  /** The filtered list holds exactly the selected indices, in increasing order. */
  lemma {:induction false} WhereFacts(locs: seq<Location>, sel: Selector)
    ensures forall k :: 0 <= k < |Where(locs, sel)| ==>
              Where(locs, sel)[k] < |locs| && Selects(sel, locs[Where(locs, sel)[k]])
    ensures forall j, k :: 0 <= j < k < |Where(locs, sel)| ==> Where(locs, sel)[j] < Where(locs, sel)[k]
    ensures forall i :: 0 <= i < |locs| && Selects(sel, locs[i]) ==> i in Where(locs, sel)
  {
    WhereSound(locs, sel);
    WhereIncreasing(locs, sel);
    WhereComplete(locs, sel);
  }

  lemma {:induction false} WhereSound(locs: seq<Location>, sel: Selector)
    ensures forall k :: 0 <= k < |Where(locs, sel)| ==>
              Where(locs, sel)[k] < |locs| && Selects(sel, locs[Where(locs, sel)[k]])
    decreases |locs|
  {
    if |locs| > 0 {
      var init := locs[..|locs| - 1];
      WhereSound(init, sel);
      var w := Where(init, sel);
      var r := Where(locs, sel);
      forall k | 0 <= k < |r|
        ensures r[k] < |locs| && Selects(sel, locs[r[k]])
      {
        if k < |w| {
          assert r[k] == w[k];
          assert init[w[k]] == locs[w[k]];
        }
      }
    }
  }

  lemma {:induction false} WhereIncreasing(locs: seq<Location>, sel: Selector)
    ensures forall j, k :: 0 <= j < k < |Where(locs, sel)| ==> Where(locs, sel)[j] < Where(locs, sel)[k]
    decreases |locs|
  {
    if |locs| > 0 {
      var init := locs[..|locs| - 1];
      WhereIncreasing(init, sel);
      WhereSound(init, sel);
      var w := Where(init, sel);
      var r := Where(locs, sel);
      forall j, k | 0 <= j < k < |r|
        ensures r[j] < r[k]
      {
        assert r[j] == w[j];
        if k < |w| {
          assert r[k] == w[k];
        }
      }
    }
  }

  lemma {:induction false} WhereComplete(locs: seq<Location>, sel: Selector)
    ensures forall i :: 0 <= i < |locs| && Selects(sel, locs[i]) ==> i in Where(locs, sel)
    decreases |locs|
  {
    if |locs| > 0 {
      var init := locs[..|locs| - 1];
      WhereComplete(init, sel);
      var w := Where(init, sel);
      var r := Where(locs, sel);
      forall i | 0 <= i < |locs| && Selects(sel, locs[i])
        ensures i in r
      {
        if i < |init| {
          assert init[i] == locs[i];
          assert i in w;
          var k :| 0 <= k < |w| && w[k] == i;
          assert r[k] == i;
        } else {
          assert r[|r| - 1] == i;
        }
      }
    }
  }

  /** `indexOf` on a filtered list: the position of index `x`, or -1. */
  function PositionOf(s: seq<nat>, x: int): (r: int)
    ensures -1 <= r < |s|
    ensures r == -1 <==> x !in s
    ensures r >= 0 ==> s[r] == x && forall j :: 0 <= j < r ==> s[j] != x
    decreases |s|
  {
    if |s| == 0 then -1
    else if s[0] == x then 0
    else
      var p := PositionOf(s[1..], x);
      if p == -1 then -1 else p + 1
  }

  /** In a list without repeats, the position of the element at `k` is `k`. */
  lemma {:induction false} PositionOfIncreasing(s: seq<nat>, k: nat)
    requires forall i, j :: 0 <= i < j < |s| ==> s[i] < s[j]
    requires k < |s|
    ensures PositionOf(s, s[k]) == k
  {
    assert s[k] in s;
  }

  // ---------------------------------------------------------------------
  // Initial selection and the displayed location

  /** The initial (image, CLUT) selection: each the sole location of its kind, else -1. */
  function InitialSelection(locs: seq<Location>): (sel: (int, int))
    ensures sel.0 != -1 ==> 0 <= sel.0 < |locs| && !locs[sel.0].isClut &&
                            forall i :: 0 <= i < |locs| && i != sel.0 ==> locs[i].isClut
    ensures sel.0 == -1 <==> |Where(locs, ImageLocs)| != 1
    ensures sel.1 != -1 ==> 0 <= sel.1 < |locs| && locs[sel.1].isClut &&
                            forall i :: 0 <= i < |locs| && i != sel.1 ==> !locs[i].isClut
    ensures sel.1 == -1 <==> |Where(locs, Cluts)| != 1
  {
    var images := Where(locs, ImageLocs);
    var cluts := Where(locs, Cluts);
    WhereFacts(locs, ImageLocs);
    WhereFacts(locs, Cluts);
    (if |images| == 1 then images[0] as int else -1, if |cluts| == 1 then cluts[0] as int else -1)
  }

  /** The selected image location, if `loc` indexes a non-CLUT location. */
  function SelectedImage(locs: seq<Location>, loc: int): Option<Location> {
    if 0 <= loc < |locs| && !locs[loc].isClut then Some(locs[loc]) else None
  }

  /** The selected CLUT, if `clut` indexes a CLUT location. */
  function SelectedClut(locs: seq<Location>, clut: int): Option<Location> {
    if 0 <= clut < |locs| && locs[clut].isClut then Some(locs[clut]) else None
  }

  /**
   * The location the viewer shows: the selected image location, or else a
   * whole-image view at location 0 whose format follows the selected CLUT
   * (2 high: 4-bit, 16 high: 8-bit, otherwise 32-bit colour).
   */
  function DisplayLocation(locs: seq<Location>, width: int, height: int, loc: int, clut: int): (d: Location)
    ensures SelectedImage(locs, loc).Some? ==> d == locs[loc]
    ensures SelectedImage(locs, loc).None? ==> d.location == 0 && !d.isClut
    ensures SelectedImage(locs, loc).None? ==>
              (d.format == PSMT4 <==> SelectedClut(locs, clut).Some? && SelectedClut(locs, clut).value.height == 2) &&
              (d.format == PSMT8 <==> SelectedClut(locs, clut).Some? && SelectedClut(locs, clut).value.height == 16)
  {
    match SelectedImage(locs, loc)
    case Some(l) => l
    case None =>
      var c := SelectedClut(locs, clut);
      if c.Some? && c.value.height == 2 then Location(0, PSMT4, width * 2, height * 4, false)
      else if c.Some? && c.value.height == 16 then Location(0, PSMT8, width * 2, height * 2, false)
      else Location(0, PSMCT32, width, height, false)
  }

  function BitsPerPixel(f: Format): int {
    match f
    case PSMCT32 => 32
    case PSMT4 => 4
    case PSMT8 => 8
    case OtherFormat => 16
  }

  /** Every fallback view covers exactly the image's own data: 32 bits per image pixel. */
  lemma FallbackCoversImage(locs: seq<Location>, width: int, height: int, loc: int, clut: int)
    requires SelectedImage(locs, loc).None?
    ensures var d := DisplayLocation(locs, width, height, loc, clut);
            BitsPerPixel(d.format) * d.width * d.height == 32 * width * height
  {
    var d := DisplayLocation(locs, width, height, loc, clut);
    if d.format == PSMT4 {
      assert 4 * (width * 2) * (height * 4) == 32 * (width * height);
    } else if d.format == PSMT8 {
      assert 8 * (width * 2) * (height * 2) == 32 * (width * height);
    }
  }

  // ---------------------------------------------------------------------
  // CLUT inference

  /** The first CLUT at index `from` or later whose location is `clutLocation`. */
  function FirstClutAt(locs: seq<Location>, clutLocation: int, from: nat): (r: Option<nat>)
    ensures r.Some? ==> from <= r.value < |locs| && locs[r.value].isClut && locs[r.value].location == clutLocation
    ensures r.Some? ==> forall i :: from <= i < r.value ==> !(locs[i].isClut && locs[i].location == clutLocation)
    ensures r.None? ==> forall i :: from <= i < |locs| ==> !(locs[i].isClut && locs[i].location == clutLocation)
    decreases |locs| - from
  {
    if from >= |locs| then None
    else if locs[from].isClut && locs[from].location == clutLocation then Some(from)
    else FirstClutAt(locs, clutLocation, from + 1)
  }

  /** The CLUT of the first pass that samples `location` and whose CLUT location exists. */
  function PassMatch(locs: seq<Location>, passes: seq<MaterialPass>, location: int): (r: Option<nat>)
    ensures r.Some? ==> r.value < |locs| && locs[r.value].isClut
    decreases |passes|
  {
    if |passes| == 0 then None
    else
      var here := if location in passes[0].textureLocations then FirstClutAt(locs, passes[0].clutLocation, 0) else None;
      if here.Some? then here else PassMatch(locs, passes[1..], location)
  }

  /** The CLUT named by the first material of this image file with a matching pass. */
  function MaterialMatch(locs: seq<Location>, mats: seq<Material>, imageIndex: int, location: int): (r: Option<nat>)
    ensures r.Some? ==> r.value < |locs| && locs[r.value].isClut
    decreases |mats|
  {
    if |mats| == 0 then None
    else
      var here := if mats[0].textureFile == imageIndex then PassMatch(locs, mats[0].passes, location) else None;
      if here.Some? then here else MaterialMatch(locs, mats[1..], imageIndex, location)
  }

  /** A pass match comes from a pass that samples the location and names that CLUT's location. */
  lemma {:induction false} PassMatchSound(locs: seq<Location>, passes: seq<MaterialPass>, location: int)
    requires PassMatch(locs, passes, location).Some?
    ensures exists p :: 0 <= p < |passes| && location in passes[p].textureLocations &&
                        passes[p].clutLocation == locs[PassMatch(locs, passes, location).value].location
    decreases |passes|
  {
    var r := PassMatch(locs, passes, location).value;
    if location in passes[0].textureLocations && FirstClutAt(locs, passes[0].clutLocation, 0).Some? {
      assert passes[0].clutLocation == locs[r].location;
    } else {
      PassMatchSound(locs, passes[1..], location);
      var p :| 0 <= p < |passes[1..]| && location in passes[1..][p].textureLocations &&
               passes[1..][p].clutLocation == locs[r].location;
      assert passes[p + 1] == passes[1..][p];
    }
  }

  /** A material match comes from a material of this image file with such a pass. */
  lemma {:induction false} MaterialMatchSound(locs: seq<Location>, mats: seq<Material>, imageIndex: int, location: int)
    requires MaterialMatch(locs, mats, imageIndex, location).Some?
    ensures exists m, p :: 0 <= m < |mats| && mats[m].textureFile == imageIndex && 0 <= p < |mats[m].passes| &&
                           location in mats[m].passes[p].textureLocations &&
                           mats[m].passes[p].clutLocation == locs[MaterialMatch(locs, mats, imageIndex, location).value].location
    decreases |mats|
  {
    var r := MaterialMatch(locs, mats, imageIndex, location).value;
    if mats[0].textureFile == imageIndex && PassMatch(locs, mats[0].passes, location).Some? {
      PassMatchSound(locs, mats[0].passes, location);
      var p :| 0 <= p < |mats[0].passes| && location in mats[0].passes[p].textureLocations &&
               mats[0].passes[p].clutLocation == locs[r].location;
      assert 0 < |mats| && mats[0].textureFile == imageIndex;
    } else {
      MaterialMatchSound(locs, mats[1..], imageIndex, location);
      var m, p :| 0 <= m < |mats[1..]| && mats[1..][m].textureFile == imageIndex && 0 <= p < |mats[1..][m].passes| &&
                  location in mats[1..][m].passes[p].textureLocations &&
                  mats[1..][m].passes[p].clutLocation == locs[r].location;
      assert mats[m + 1] == mats[1..][m];
    }
  }

  /** The 4-bit rule: the n-th 4-bit location pairs with the n-th 2-high CLUT when the counts agree. */
  function PairedClut(locs: seq<Location>, loc: int): (r: int)
    ensures r == -1 || (0 <= r < |locs| && locs[r].isClut && locs[r].height == 2)
  {
    var fours := Where(locs, OfFormat(PSMT4));
    var cluts := Where(locs, ClutsOfHeight(2));
    WhereFacts(locs, ClutsOfHeight(2));
    var pos := PositionOf(fours, loc);
    var clutIndex := if 0 <= pos < |cluts| then cluts[pos] as int else -1;
    if |fours| == |cluts| && clutIndex >= 0 then clutIndex else -1
  }

  /** `infer_clut_location(loc, orig)`: the CLUT to select along with image location `loc`. */
  function InferredClut(locs: seq<Location>, materials: Option<seq<Material>>, imageIndex: int, loc: int, orig: int): (r: int)
    ensures r == orig || r == -1 || (0 <= r < |locs| && locs[r].isClut)
    ensures loc == -1 || SelectedImage(locs, loc).None? ==> r == orig
    ensures (SelectedImage(locs, loc).Some? && locs[loc].format == OtherFormat &&
             (materials.None? || MaterialMatch(locs, materials.value, imageIndex, locs[loc].location).None?)) ==> r == orig
  {
    if loc == -1 || SelectedImage(locs, loc).None? then orig
    else
      var location := locs[loc];
      if location.format == PSMCT32 then -1
      else
        var origClut := SelectedClut(locs, orig);
        var matched := if materials.Some? then MaterialMatch(locs, materials.value, imageIndex, location.location) else None;
        if matched.Some? then matched.value
        else if location.format == PSMT4 then
          var paired := PairedClut(locs, loc);
          if paired >= 0 then paired
          else if origClut.Some? && origClut.value.height == 2 then orig else -1
        else if location.format == PSMT8 then
          var cluts := Where(locs, ClutsOfHeight(16));
          WhereFacts(locs, ClutsOfHeight(16));
          if |cluts| == 1 then cluts[0]
          else if origClut.Some? && origClut.value.height == 16 then orig else -1
        else orig
  }

  /** A 32-bit image needs no CLUT: selecting one clears the CLUT selection. */
  lemma TrueColourClearsClut(locs: seq<Location>, materials: Option<seq<Material>>, imageIndex: int, loc: int, orig: int)
    requires 0 <= loc < |locs| && !locs[loc].isClut && locs[loc].format == PSMCT32
    ensures InferredClut(locs, materials, imageIndex, loc, orig) == -1
  {
  }

  /** A material of this image file that names a CLUT for the location wins over every other rule. */
  lemma {:induction false} MaterialWins(locs: seq<Location>, mats: seq<Material>, imageIndex: int, loc: int, orig: int)
    requires 0 <= loc < |locs| && !locs[loc].isClut && locs[loc].format != PSMCT32
    requires MaterialMatch(locs, mats, imageIndex, locs[loc].location).Some?
    ensures var r := InferredClut(locs, Some(mats), imageIndex, loc, orig);
            r == MaterialMatch(locs, mats, imageIndex, locs[loc].location).value &&
            0 <= r < |locs| && locs[r].isClut &&
            exists m, p :: 0 <= m < |mats| && mats[m].textureFile == imageIndex && 0 <= p < |mats[m].passes| &&
                           locs[loc].location in mats[m].passes[p].textureLocations &&
                           mats[m].passes[p].clutLocation == locs[r].location
  {
    MaterialMatchSound(locs, mats, imageIndex, locs[loc].location);
  }

  /**
   * Without a material match, the k-th 4-bit location gets the k-th CLUT of
   * height 2 whenever there are as many of those CLUTs as 4-bit locations.
   */
  lemma {:induction false} FourBitPairing(locs: seq<Location>, materials: Option<seq<Material>>, imageIndex: int, loc: int, orig: int, k: nat)
    requires 0 <= loc < |locs| && !locs[loc].isClut && locs[loc].format == PSMT4
    requires materials.None? || MaterialMatch(locs, materials.value, imageIndex, locs[loc].location).None?
    requires k < |Where(locs, OfFormat(PSMT4))| && Where(locs, OfFormat(PSMT4))[k] == loc
    requires |Where(locs, OfFormat(PSMT4))| == |Where(locs, ClutsOfHeight(2))|
    ensures var r := InferredClut(locs, materials, imageIndex, loc, orig);
            r == Where(locs, ClutsOfHeight(2))[k] && locs[r].isClut && locs[r].height == 2
  {
    WhereFacts(locs, OfFormat(PSMT4));
    WhereFacts(locs, ClutsOfHeight(2));
    PositionOfIncreasing(Where(locs, OfFormat(PSMT4)), k);
  }

  /**
   * Without a material match, a 4-bit location whose count of 4-bit
   * locations differs from the count of 2-high CLUTs keeps the original
   * selection when that is a 2-high CLUT, and clears it otherwise.
   */
  lemma FourBitFallback(locs: seq<Location>, materials: Option<seq<Material>>, imageIndex: int, loc: int, orig: int)
    requires 0 <= loc < |locs| && !locs[loc].isClut && locs[loc].format == PSMT4
    requires materials.None? || MaterialMatch(locs, materials.value, imageIndex, locs[loc].location).None?
    requires |Where(locs, OfFormat(PSMT4))| != |Where(locs, ClutsOfHeight(2))|
    ensures InferredClut(locs, materials, imageIndex, loc, orig) ==
              if SelectedClut(locs, orig).Some? && locs[orig].height == 2 then orig else -1
  {
  }

  /** Without a material match, an 8-bit location gets the sole CLUT of height 16 if there is one. */
  lemma {:induction false} EightBitSoleClut(locs: seq<Location>, materials: Option<seq<Material>>, imageIndex: int, loc: int, orig: int)
    requires 0 <= loc < |locs| && !locs[loc].isClut && locs[loc].format == PSMT8
    requires materials.None? || MaterialMatch(locs, materials.value, imageIndex, locs[loc].location).None?
    ensures var r := InferredClut(locs, materials, imageIndex, loc, orig);
            |Where(locs, ClutsOfHeight(16))| == 1 ==>
              r == Where(locs, ClutsOfHeight(16))[0] && 0 <= r < |locs| && locs[r].isClut && locs[r].height == 16
    ensures var r := InferredClut(locs, materials, imageIndex, loc, orig);
            |Where(locs, ClutsOfHeight(16))| != 1 ==> (r == orig && SelectedClut(locs, orig).Some? && locs[orig].height == 16) || r == -1
  {
    EightBitRule(locs, materials, imageIndex, loc, orig);
    var cluts := Where(locs, ClutsOfHeight(16));
    WhereFacts(locs, ClutsOfHeight(16));
    if |cluts| == 1 {
      assert Selects(ClutsOfHeight(16), locs[cluts[0]]);
    }
  }

  lemma {:induction false} EightBitRule(locs: seq<Location>, materials: Option<seq<Material>>, imageIndex: int, loc: int, orig: int)
    requires 0 <= loc < |locs| && !locs[loc].isClut && locs[loc].format == PSMT8
    requires materials.None? || MaterialMatch(locs, materials.value, imageIndex, locs[loc].location).None?
    ensures var cluts := Where(locs, ClutsOfHeight(16));
            var origClut := SelectedClut(locs, orig);
            InferredClut(locs, materials, imageIndex, loc, orig) ==
              if |cluts| == 1 then cluts[0] as int
              else if origClut.Some? && origClut.value.height == 16 then orig else -1
  {
  }

  /** `infer_clut_location` with its search loops over materials, passes and candidate CLUTs. */
  method InferClutLocation(locs: seq<Location>, materials: Option<seq<Material>>, imageIndex: int, loc: int, orig: int)
    returns (r: int)
    ensures r == InferredClut(locs, materials, imageIndex, loc, orig)
  {
    if loc == -1 || !(0 <= loc < |locs|) || locs[loc].isClut {
      return orig;
    }
    var location := locs[loc];
    if location.format == PSMCT32 {
      return -1;
    }
    var origClut := SelectedClut(locs, orig);
    if materials.Some? {
      var mats := materials.value;
      var m := 0;
      while m < |mats|
        invariant 0 <= m <= |mats|
        invariant MaterialMatch(locs, mats, imageIndex, location.location) ==
                  MaterialMatch(locs, mats[m..], imageIndex, location.location)
      {
        var mat := mats[m];
        assert mats[m..][0] == mat && mats[m..][1..] == mats[m + 1..];
        if mat.textureFile == imageIndex {
          var found := SearchPasses(locs, mat.passes, location.location);
          if found.Some? {
            return found.value;
          }
        }
        m := m + 1;
      }
      assert mats[m..] == [];
    }
    if location.format == PSMT4 {
      var fours := Where(locs, OfFormat(PSMT4));
      var cluts := Where(locs, ClutsOfHeight(2));
      var pos := PositionOf(fours, loc);
      var clutIndex := if 0 <= pos < |cluts| then cluts[pos] as int else -1;
      if |fours| == |cluts| && clutIndex >= 0 {
        return clutIndex;
      }
      return if origClut.Some? && origClut.value.height == 2 then orig else -1;
    } else if location.format == PSMT8 {
      var cluts := Where(locs, ClutsOfHeight(16));
      if |cluts| == 1 {
        return cluts[0];
      }
      return if origClut.Some? && origClut.value.height == 16 then orig else -1;
    }
    return orig;
  }

  /** The loops over one material's passes and, for a pass sampling the location, over the candidate CLUTs. */
  method SearchPasses(locs: seq<Location>, passes: seq<MaterialPass>, location: int) returns (r: Option<nat>)
    ensures r == PassMatch(locs, passes, location)
  {
    var p := 0;
    while p < |passes|
      invariant 0 <= p <= |passes|
      invariant PassMatch(locs, passes, location) == PassMatch(locs, passes[p..], location)
    {
      var pass := passes[p];
      assert passes[p..][0] == pass && passes[p..][1..] == passes[p + 1..];
      if location in pass.textureLocations {
        var i := 0;
        while i < |locs|
          invariant 0 <= i <= |locs|
          invariant FirstClutAt(locs, pass.clutLocation, 0) == FirstClutAt(locs, pass.clutLocation, i)
        {
          var candidate := locs[i];
          if candidate.isClut && candidate.location == pass.clutLocation {
            return Some(i);
          }
          i := i + 1;
        }
      }
      p := p + 1;
    }
    assert passes[p..] == [];
    return None;
  }

  // ---------------------------------------------------------------------
  // Keyboard selection reducers

  datatype Selection = Selection(loc: int, clut: int)

  /** The step through a filtered list: one forward or back from the current entry, wrapping at both ends. */
  function Cycled(list: seq<nat>, current: int, adj: int): (r: int)
    requires adj == 1 || adj == -1
    ensures r == -1 <==> |list| == 0
    ensures r != -1 ==> r in list
  {
    var index := adj + PositionOf(list, current);
    var wrapped := if index < 0 then |list| - 1 else if index >= |list| then 0 else index;
    if 0 <= wrapped < |list| then list[wrapped] else -1
  }

  /** From entry `k` the step lands on entry `(k + adj) mod n`; from no entry, on the first or the last. */
  lemma {:induction false} CycledPosition(list: seq<nat>, current: int, adj: int)
    requires adj == 1 || adj == -1
    requires |list| > 0
    ensures var k := PositionOf(list, current);
            Cycled(list, current, adj) ==
              if k >= 0 then list[(k + adj) % |list|]
              else if adj == 1 then list[0] else list[|list| - 1]
  {
    var k := PositionOf(list, current);
    if k >= 0 {
      WrapIsMod(k + adj, |list|);
    }
  }

  /** Wrapping one past either end is reduction modulo the length. */
  lemma WrapIsMod(x: int, n: int)
    requires n > 0 && -1 <= x <= n
    ensures x % n == if x == n then 0 else if x == -1 then n - 1 else x
  {
    if x == n {
      assert x % n == 0;
    } else if x == -1 {
      assert x == -1 * n + (n - 1);
    }
  }

  /** One step forward and one back returns to the same entry of a list without repeats. */
  lemma CycledBack(list: seq<nat>, current: int)
    requires forall i, j :: 0 <= i < j < |list| ==> list[i] < list[j]
    requires current in list
    ensures Cycled(list, Cycled(list, current, 1), -1) == current
    ensures Cycled(list, Cycled(list, current, -1), 1) == current
  {
    var k := PositionOf(list, current);
    var n := |list|;
    var fwd := if k + 1 == n then 0 else k + 1;
    var back := if k == 0 then n - 1 else k - 1;
    CycledAt(list, k, 1);
    CycledAt(list, fwd, -1);
    CycledAt(list, k, -1);
    CycledAt(list, back, 1);
  }

  /** The step from the entry at `k` of a list without repeats. */
  lemma CycledAt(list: seq<nat>, k: nat, adj: int)
    requires forall i, j :: 0 <= i < j < |list| ==> list[i] < list[j]
    requires k < |list| && (adj == 1 || adj == -1)
    ensures Cycled(list, list[k], adj) ==
            list[if k + adj < 0 then |list| - 1 else if k + adj >= |list| then 0 else k + adj]
  {
    PositionOfIncreasing(list, k);
  }

  /** Arrow up or down: the previous or next image location, and the CLUT inferred for it. */
  function StepImage(locs: seq<Location>, materials: Option<seq<Material>>, imageIndex: int, s: Selection, down: bool): (t: Selection)
    ensures t.loc == -1 <==> |Where(locs, ImageLocs)| == 0
    ensures t.loc != -1 ==> 0 <= t.loc < |locs| && !locs[t.loc].isClut
    ensures t.clut == s.clut || t.clut == -1 || (0 <= t.clut < |locs| && locs[t.clut].isClut)
  {
    var loc := Cycled(Where(locs, ImageLocs), s.loc, if down then 1 else -1);
    WhereFacts(locs, ImageLocs);
    Selection(loc, InferredClut(locs, materials, imageIndex, loc, s.clut))
  }

  /** The CLUTs that arrow left and right cycle through, by the format of the selected location. */
  function ClutChoices(locs: seq<Location>, loc: int): Selector {
    if 0 <= loc < |locs| && locs[loc].format == PSMT4 then ClutsOfHeight(2)
    else if 0 <= loc < |locs| && locs[loc].format == PSMT8 then ClutsOfHeight(16)
    else Cluts
  }

  /** Arrow left or right: the previous or next CLUT of a height suited to the selected location. */
  function StepClut(locs: seq<Location>, s: Selection, right: bool): (t: Selection)
    ensures t.loc == s.loc
    ensures t.clut != -1 ==> 0 <= t.clut < |locs| && locs[t.clut].isClut
    ensures t.clut != -1 && 0 <= s.loc < |locs| && locs[s.loc].format == PSMT4 ==> locs[t.clut].height == 2
    ensures t.clut != -1 && 0 <= s.loc < |locs| && locs[s.loc].format == PSMT8 ==> locs[t.clut].height == 16
  {
    WhereFacts(locs, ClutChoices(locs, s.loc));
    Selection(s.loc, Cycled(Where(locs, ClutChoices(locs, s.loc)), s.clut, if right then 1 else -1))
  }

  /** Escape: clear the image selection; the CLUT is cleared only once no image is selected. */
  function Escaped(s: Selection): (t: Selection)
    ensures t.loc == -1
    ensures t.clut == -1 <==> s.loc == -1 || s.clut == -1
  {
    Selection(-1, if s.loc == -1 then -1 else s.clut)
  }

  /** Two presses of Escape clear both selections, whatever the starting state; a third changes nothing. */
  lemma EscapeTwice(s: Selection)
    ensures Escaped(Escaped(s)) == Selection(-1, -1)
    ensures Escaped(Escaped(Escaped(s))) == Escaped(Escaped(s))
  {
  }
}
