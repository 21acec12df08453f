/**
 * Addresses into an archive. A path is a chain of segments ending at the
 * root archive; each segment names one step (a file by index, the decoded
 * chunk file of a blob, the n-th chunk with a given type and id, a byte
 * window, ...). A sub-archive segment also refers to a second chain that
 * locates its sector map.
 *
 * This module holds the chain itself: what kind of value each path denotes,
 * its canonical text form, the chain flattened root-first, and the rule that
 * infers where a chunk's materials live. Reading and writing through a path
 * is in module PathOps.
 */
module Paths {
  import opened Wrappers
  import opened Archive

  datatype Path =
    | Root
    | SubGamefile(parent: Path, sectorMapRef: Path)
    | File(parent: Path, index: nat)
    | AsChunkFile(parent: Path)
    | AsSingleChunk(parent: Path)
    | ChunkAt(parent: Path, typ: int, id: int, index: nat)
    | ChunkContents(parent: Path)
    | BlobSlice(parent: Path, start: int, end: Option<int>)
    | AsInstancedModels(parent: Path)
    | InstancedModel(parent: Path, index: nat, isLod: bool)
    | AsVag(parent: Path)

  /** The type parameter of a path: the kind of value it denotes. */
  datatype Kind = GamefileK | BlobK | ChunkFileK | ChunkK | ModelsK | VagK

  /** The type guards `is_gamefile`, `is_blob`, ... folded into one classification. */
  function KindOf(p: Path): Kind {
    match p
    case Root => GamefileK
    case SubGamefile(_, _) => GamefileK
    case File(_, _) => BlobK
    case BlobSlice(_, _, _) => BlobK
    case ChunkContents(_) => BlobK
    case AsChunkFile(_) => ChunkFileK
    case AsSingleChunk(_) => ChunkK
    case ChunkAt(_, _, _, _) => ChunkK
    case InstancedModel(_, _, _) => ChunkK
    case AsInstancedModels(_) => ModelsK
    case AsVag(_) => VagK
  }

  /** Every segment's parent has the kind its constructor declares. */
  predicate WellTyped(p: Path) {
    match p
    case Root => true
    case SubGamefile(q, smr) => KindOf(q) == BlobK && KindOf(smr) == ChunkK && WellTyped(q) && WellTyped(smr)
    case File(q, _) => KindOf(q) == GamefileK && WellTyped(q)
    case AsChunkFile(q) => KindOf(q) == BlobK && WellTyped(q)
    case AsSingleChunk(q) => KindOf(q) == BlobK && WellTyped(q)
    case ChunkAt(q, _, _, _) => KindOf(q) == ChunkFileK && WellTyped(q)
    case ChunkContents(q) => KindOf(q) == ChunkK && WellTyped(q)
    case BlobSlice(q, _, _) => KindOf(q) == BlobK && WellTyped(q)
    case AsInstancedModels(q) => KindOf(q) == BlobK && WellTyped(q)
    case InstancedModel(q, _, _) => KindOf(q) == ModelsK && WellTyped(q)
    case AsVag(q) => KindOf(q) == BlobK && WellTyped(q)
  }

  /** Number of segments, counting a sub-archive's sector-map chain too. */
  function Size(p: Path): nat {
    match p
    case Root => 0
    case SubGamefile(q, smr) => Size(q) + Size(smr) + 1
    case File(q, _) => Size(q) + 1
    case AsChunkFile(q) => Size(q) + 1
    case AsSingleChunk(q) => Size(q) + 1
    case ChunkAt(q, _, _, _) => Size(q) + 1
    case ChunkContents(q) => Size(q) + 1
    case BlobSlice(q, _, _) => Size(q) + 1
    case AsInstancedModels(q) => Size(q) + 1
    case InstancedModel(q, _, _) => Size(q) + 1
    case AsVag(q) => Size(q) + 1
  }

  /** The optional `parent` property: the root has none. */
  function Parent(p: Path): Option<Path> {
    if p.Root? then None else Some(p.parent)
  }

  /** `a` lies strictly above `p` on its parent chain. */
  predicate IsAncestor(a: Path, p: Path)
    decreases p
  {
    !p.Root? && (p.parent == a || IsAncestor(a, p.parent))
  }

  lemma {:induction false} AncestorTransitive(a: Path, b: Path, p: Path)
    requires IsAncestor(a, b) && IsAncestor(b, p)
    ensures IsAncestor(a, p)
    decreases p
  {
    if p.parent == b {
      assert IsAncestor(a, p.parent);
    } else {
      assert IsAncestor(b, p.parent);
      AncestorTransitive(a, b, p.parent);
      assert IsAncestor(a, p.parent);
    }
  }

  lemma {:induction false} AncestorSmaller(a: Path, p: Path)
    requires IsAncestor(a, p)
    ensures Size(a) < Size(p)
    decreases p
  {
    if p.parent == a {
      assert Size(p.parent) < Size(p);
    } else {
      AncestorSmaller(a, p.parent);
      assert Size(p.parent) < Size(p);
    }
  }

  // ---------------------------------------------------------------------
  // Canonical text form

  /** The decimal digit character for `d`. */
  function DigitChar(d: nat): char
    requires d < 10
  {
    ('0' as int + d) as char
  }

  /** Decimal digits of a natural number, as template-literal interpolation prints it. */
  function NatToString(n: nat): (r: string)
    ensures |r| > 0
    ensures forall i :: 0 <= i < |r| ==> '0' <= r[i] <= '9'
  {
    if n < 10 then [DigitChar(n)] else NatToString(n / 10) + [DigitChar(n % 10)]
  }

  function IntToString(n: int): (r: string)
    ensures |r| > 0
  {
    if n < 0 then "-" + NatToString(-n) else NatToString(n)
  }

  /**
   * `toString()` of a path. `typeName` is the reverse mapping of the external
   * ChunkType enum: a chunk type with a name prints as the name, otherwise as
   * its number.
   */
  function ToString(p: Path, typeName: int -> Option<string>): (r: string)
    ensures p.Root? ==> r == "root"
    ensures !p.Root? ==> ToString(p.parent, typeName) < r
    decreases p, 1
  {
    if p.Root? then "root"
    else
      var up := ToString(p.parent, typeName);
      var tail := Suffix(p, typeName);
      assert (up + tail)[..|up|] == up;
      up + tail
  }

  /** What a path's text adds to its parent's text; never empty. */
  function Suffix(p: Path, typeName: int -> Option<string>): (r: string)
    requires !p.Root?
    ensures |r| > 0
    decreases p, 0
  {
    match p
    case SubGamefile(_, smr) => ".use_bls(" + ToString(smr, typeName) + ")"
    case File(_, i) => "[" + NatToString(i) + "]"
    case AsChunkFile(_) => ".as_chunk_file"
    case AsSingleChunk(_) => ".as_chunk"
    case ChunkAt(_, t, id, i) =>
      var typeStr := match typeName(t) case Some(name) => name case None => IntToString(t);
      ".chunk[" + typeStr + ":" + IntToString(id) + ":" + NatToString(i) + "]"
    case ChunkContents(_) => ".contents"
    case BlobSlice(_, s, e) =>
      // an end of 0 is falsy and prints like an absent end
      var endStr := if e.Some? && e.value != 0 then "," + IntToString(e.value) else "";
      ".slice(" + IntToString(s) + endStr + ")"
    case AsInstancedModels(_) => ".as_instanced_models"
    case InstancedModel(_, i, lod) =>
      "." + (if lod then "lod_model" else "model") + "[" + NatToString(i) + "]"
    case AsVag(_) => ".as_vag"
  }

  /** The text of every ancestor is a proper prefix of the text of the path. */
  lemma {:induction false} AncestorStringIsPrefix(a: Path, p: Path, typeName: int -> Option<string>)
    requires IsAncestor(a, p)
    ensures ToString(a, typeName) < ToString(p, typeName)
    decreases p
  {
    var up := ToString(p.parent, typeName);
    assert up < ToString(p, typeName);
    if p.parent != a {
      AncestorStringIsPrefix(a, p.parent, typeName);
      PrefixTransitive(ToString(a, typeName), up, ToString(p, typeName));
    }
  }

  lemma PrefixTransitive(x: string, y: string, z: string)
    requires x < y && y < z
    ensures x < z
  {
    assert z[..|y|] == y;
    assert z[..|x|] == y[..|x|];
  }

  /**
   * Two different windows of the same blob share a text form: a slice ending
   * at 0 prints like a slice running to the end. The text form is therefore
   * not injective.
   */
  lemma {:induction false} SliceEndZeroCollides(q: Path, start: int, typeName: int -> Option<string>)
    ensures BlobSlice(q, start, Some(0)) != BlobSlice(q, start, None)
    ensures ToString(BlobSlice(q, start, Some(0)), typeName) == ToString(BlobSlice(q, start, None), typeName)
  {
  }

  // ---------------------------------------------------------------------
  // Flattening

  function Reverse<T>(s: seq<T>): (r: seq<T>)
    ensures |r| == |s|
    ensures forall i :: 0 <= i < |s| ==> r[i] == s[|s| - 1 - i]
  {
    if s == [] then [] else Reverse(s[1..]) + [s[0]]
  }

  /** `flatten(path)`: the chain from the root down to `path`, each element the parent of the next. */
  method Flatten(path: Option<Path>) returns (r: seq<Path>)
    ensures path.None? ==> r == []
    ensures path.Some? ==> |r| > 0 && r[0] == Root && r[|r| - 1] == path.value
    ensures forall i :: 0 < i < |r| ==> !r[i].Root? && r[i].parent == r[i - 1]
    ensures forall i :: 0 <= i < |r| - 1 ==> IsAncestor(r[i], path.value)
  {
    var flattened: seq<Path> := [];
    var cur := path;
    while cur.Some?
      invariant path.None? ==> flattened == [] && cur.None?
      invariant flattened == [] ==> cur == path
      invariant flattened != [] ==> flattened[0] == path.value
      invariant forall i :: 0 <= i < |flattened| - 1 ==> !flattened[i].Root? && flattened[i + 1] == flattened[i].parent
      invariant forall i :: 0 < i < |flattened| ==> IsAncestor(flattened[i], path.value)
      invariant flattened != [] ==> cur == Parent(flattened[|flattened| - 1])
      decreases match cur case None => 0 case Some(q) => Size(q) + 1
    {
      var here := cur.value;
      if flattened != [] {
        var last := flattened[|flattened| - 1];
        if |flattened| == 1 {
          assert IsAncestor(here, path.value);
        } else {
          assert IsAncestor(last, path.value);
          AncestorTransitive(here, last, path.value);
        }
      }
      flattened := flattened + [here];
      cur := Parent(here);
    }
    r := Reverse(flattened);
  }

  // ---------------------------------------------------------------------
  // Materials source

  /** The first segment above any run of byte windows. */
  function BelowSlices(p: Path): (r: Path)
    ensures !r.BlobSlice?
    ensures r == p || IsAncestor(r, p)
    ensures Size(r) <= Size(p)
    ensures WellTyped(p) && KindOf(p) == BlobK ==> WellTyped(r) && KindOf(r) == BlobK
    decreases p
  {
    if p.BlobSlice? then
      var r := BelowSlices(p.parent);
      assert r == p.parent || IsAncestor(r, p.parent);
      r
    else p
  }

  /**
   * Which chunk file holds the materials of the chunk at `p`: the chunk's own
   * container, looking through model-list nesting, instanced-model lists and
   * byte windows; a standalone chunk defaults to file 7 of the root archive.
   */
  function MaterialsSource(p: Path): (r: Option<Path>)
    decreases Size(p)
  {
    if p.ChunkAt? && p.parent.AsChunkFile? && p.parent.parent.ChunkContents?
      && p.parent.parent.parent.ChunkAt? && p.parent.parent.parent.typ == ModelListType
    then
      assert Size(p.parent.parent.parent) < Size(p.parent.parent) < Size(p.parent) < Size(p);
      MaterialsSource(p.parent.parent.parent)
    else if p.InstancedModel? && p.parent.AsInstancedModels? && p.parent.parent.ChunkContents?
    then
      assert Size(p.parent.parent.parent) < Size(p.parent.parent) < Size(p.parent) < Size(p);
      MaterialsSource(p.parent.parent.parent)
    else if p.ChunkAt? then Some(p.parent)
    else if p.AsSingleChunk? then
      if p.parent.BlobSlice? then
        var sp := BelowSlices(p.parent);
        if sp.ChunkContents? && sp.parent.ChunkAt? then
          assert Size(sp.parent) < Size(sp) <= Size(p.parent) < Size(p);
          MaterialsSource(sp.parent)
        else None
      else Some(AsChunkFile(File(Root, 7)))
    else None
  }

  /**
   * The inferred source is a chunk-file path: the default, or one of the
   * chunk's own ancestors.
   */
  lemma {:induction false} MaterialsSourceIsContainer(p: Path)
    requires WellTyped(p) && KindOf(p) == ChunkK
    ensures MaterialsSource(p).Some? ==> WellTyped(MaterialsSource(p).value)
    ensures MaterialsSource(p).Some? ==> KindOf(MaterialsSource(p).value) == ChunkFileK
    ensures MaterialsSource(p).Some? ==>
              MaterialsSource(p).value == AsChunkFile(File(Root, 7)) || IsAncestor(MaterialsSource(p).value, p)
    decreases Size(p)
  {
    if p.ChunkAt? && p.parent.AsChunkFile? && p.parent.parent.ChunkContents?
      && p.parent.parent.parent.ChunkAt? && p.parent.parent.parent.typ == ModelListType
    {
      var up := p.parent.parent.parent;
      assert Size(up) < Size(p.parent.parent) < Size(p.parent) < Size(p);
      assert WellTyped(p.parent) && WellTyped(p.parent.parent);
      MaterialsSourceIsContainer(up);
      var r := MaterialsSource(up);
      if r.Some? && r.value != AsChunkFile(File(Root, 7)) {
        assert IsAncestor(up, p.parent.parent);
        assert IsAncestor(up, p);
        AncestorTransitive(r.value, up, p);
      }
    } else if p.InstancedModel? && p.parent.AsInstancedModels? && p.parent.parent.ChunkContents? {
      var up := p.parent.parent.parent;
      assert Size(up) < Size(p.parent.parent) < Size(p.parent) < Size(p);
      assert WellTyped(p.parent) && WellTyped(p.parent.parent);
      MaterialsSourceIsContainer(up);
      var r := MaterialsSource(up);
      if r.Some? && r.value != AsChunkFile(File(Root, 7)) {
        assert IsAncestor(up, p.parent.parent);
        assert IsAncestor(up, p);
        AncestorTransitive(r.value, up, p);
      }
    } else if p.AsSingleChunk? && p.parent.BlobSlice? {
      var sp := BelowSlices(p.parent);
      if sp.ChunkContents? && sp.parent.ChunkAt? {
        var up := sp.parent;
        assert Size(up) < Size(sp) <= Size(p.parent) < Size(p);
        MaterialsSourceIsContainer(up);
        var r := MaterialsSource(up);
        if r.Some? && r.value != AsChunkFile(File(Root, 7)) {
          assert IsAncestor(sp, p);
          assert IsAncestor(up, sp);
          AncestorTransitive(up, sp, p);
          AncestorTransitive(r.value, up, p);
        }
      }
    }
  }

  /** `infer_materials_source`, with its loop over byte windows. */
  method InferMaterialsSource(p: Path) returns (r: Option<Path>)
    ensures r == MaterialsSource(p)
    decreases Size(p)
  {
    if p.ChunkAt? && p.parent.AsChunkFile? && p.parent.parent.ChunkContents?
      && p.parent.parent.parent.ChunkAt? && p.parent.parent.parent.typ == ModelListType
    {
      assert Size(p.parent.parent.parent) < Size(p.parent.parent) < Size(p.parent) < Size(p);
      r := InferMaterialsSource(p.parent.parent.parent);
    } else if p.InstancedModel? && p.parent.AsInstancedModels? && p.parent.parent.ChunkContents? {
      assert Size(p.parent.parent.parent) < Size(p.parent.parent) < Size(p.parent) < Size(p);
      r := InferMaterialsSource(p.parent.parent.parent);
    } else if p.ChunkAt? {
      r := Some(p.parent);
    } else if p.AsSingleChunk? {
      if p.parent.BlobSlice? {
        var sliceParent := p.parent;
        while sliceParent.BlobSlice?
          invariant BelowSlices(sliceParent) == BelowSlices(p.parent)
          invariant sliceParent == p.parent || IsAncestor(sliceParent, p.parent)
          decreases Size(sliceParent)
        {
          if sliceParent != p.parent {
            AncestorTransitive(sliceParent.parent, sliceParent, p.parent);
          }
          sliceParent := sliceParent.parent;
        }
        if sliceParent.ChunkContents? && sliceParent.parent.ChunkAt? {
          assert Size(sliceParent.parent) < Size(sliceParent) <= Size(p.parent) < Size(p);
          r := InferMaterialsSource(sliceParent.parent);
        } else {
          r := None;
        }
      } else {
        r := Some(AsChunkFile(File(Root, 7)));
      }
    } else {
      r := None;
    }
  }
}
