/**
 * The values the editor moves around: byte blobs, chunks, chunk files,
 * instanced-model lists, audio, sector maps and whole archives ("gamefiles"),
 * plus the external codecs that turn bytes into these values and back.
 *
 * A browser Blob is an immutable object compared by identity (the decode
 * caches are WeakMaps keyed by the object). A `Blob` here is its bytes plus a
 * `tag` standing for that identity: two blobs with equal bytes and different
 * tags are two different objects.
 */
module Archive {
  import opened Wrappers

  datatype Blob = Blob(tag: nat, bytes: seq<bv8>)

  /** Start or end index as `Blob.slice` resolves it: negatives count from the end, then clamp. */
  function ClampIndex(x: int, size: nat): (r: nat)
    ensures r <= size
    ensures 0 <= x <= size ==> r == x
  {
    if x < 0 then (if size + x < 0 then 0 else size + x)
    else if x > size then size
    else x
  }

  /** The bytes `Blob.slice(start, end)` yields. */
  function SliceBytes(b: seq<bv8>, start: int, end: int): (r: seq<bv8>)
    ensures 0 <= start <= end <= |b| ==> r == b[start..end]
    ensures |r| <= |b|
  {
    var s := ClampIndex(start, |b|);
    var e := ClampIndex(end, |b|);
    if e <= s then [] else b[s..e]
  }

  /** Chunk type numbers the core names (members of the external ChunkType enum; values not known here). */
  const ModelListType: int
  const SectorMapType: int

  /** A typed, identified record. Siblings may share (typ, id). */
  datatype Chunk = Chunk(typ: int, id: int, contents: Blob)

  /** A decoded container: an ordered sequence of chunks. */
  datatype ChunkFile = ChunkFile(chunks: seq<Chunk>)

  /** One instanced-model entry; either model may be absent. */
  datatype ModelEntry = ModelEntry(model: Option<Chunk>, lodModel: Option<Chunk>)

  /** An instanced-model list; `None` is a hole in a sparse array. */
  datatype InstancedModels = InstancedModels(models: seq<Option<ModelEntry>>)

  /** Decoded audio; its structure belongs to the external codec. */
  datatype VagAudio = VagAudio(samples: seq<bv8>)

  /** A sector-map record: the file table of a sub-archive plus the rest of the record. */
  datatype SectorMap = SectorMap(sectors: seq<int>, sizes: seq<int>, header: seq<bv8>)

  /** An archive: its logical files, by index. */
  datatype Gamefile = Gamefile(files: seq<Blob>)

  /** `gamefile.get_file(index)`. */
  function GetFile(g: Gamefile, index: nat): (r: Result<Blob>)
    ensures r.Ok? <==> index < |g.files|
    ensures r.Ok? ==> r.value == g.files[index]
  {
    if index < |g.files| then Ok(g.files[index]) else Err(NotFound("file"))
  }

  /** `gamefile.copy()` followed by `replace_file(index, blob)`: a new archive, only file `index` differs. */
  function ReplaceFile(g: Gamefile, index: nat, b: Blob): (r: Result<Gamefile>)
    ensures r.Ok? <==> index < |g.files|
    ensures r.Ok? ==> |r.value.files| == |g.files| && r.value.files[index] == b
    ensures r.Ok? ==> forall j :: 0 <= j < |g.files| && j != index ==> r.value.files[j] == g.files[j]
  {
    if index < |g.files| then Ok(Gamefile(g.files[index := b])) else Err(NotFound("file"))
  }

  /** The external codecs, as values: the core only calls them. */
  datatype Codecs = Codecs(
    decodeChunkFile: seq<bv8> -> Result<ChunkFile>,
    encodeChunkFile: ChunkFile -> seq<bv8>,
    decodeChunk: seq<bv8> -> Result<Chunk>,
    encodeChunk: Chunk -> seq<bv8>,
    decodeModels: seq<bv8> -> Result<InstancedModels>,
    encodeModels: InstancedModels -> seq<bv8>,
    decodeVag: seq<bv8> -> Result<VagAudio>,
    encodeVag: VagAudio -> seq<bv8>,
    vagName: seq<bv8> -> Result<string>,
    decodeSectorMap: seq<bv8> -> Result<SectorMap>,
    encodeSectorMap: SectorMap -> seq<bv8>,
    /** `new Gamefile(blob, sector_map)`: carve a blob into files by a sector map. */
    carve: (Blob, SectorMap) -> Gamefile,
    /** `gamefile.blob`: the blob backing an archive. */
    gamefileBlob: Gamefile -> Blob,
    /** `gamefile.sector_map.sectors` and `.sizes`. */
    sectorTable: Gamefile -> (seq<int>, seq<int>)
  )
}
