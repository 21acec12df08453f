/**
 * The deterministic parts of the file tree: how the children of a chunk
 * file are numbered and addressed, which root files are sub-archives cut by
 * a sector map, the order in which a file's contents are tried against the
 * decoders, the list of file addresses of an archive, and the size warning.
 */
module FilesPane {
  import opened Wrappers
  import opened Archive
  import opened Paths
  import opened ChunkSelect

  // ---------------------------------------------------------------------
  // Occurrence numbering of a chunk file's children

  /** The occurrence number of child `k`: how many earlier siblings share its (type, id). */
  function Occurrence(chunks: seq<Chunk>, k: nat): nat
    requires k < |chunks|
  {
    CountMatches(chunks[..k], chunks[k].typ, chunks[k].id)
  }

  /** The counter `index_map` holds for a (type, id) key; an absent key reads as 0. */
  function Seen(m: map<(int, int), nat>, typ: int, id: int): nat {
    if (typ, id) in m then m[(typ, id)] else 0
  }

  /** The `index_map` loop over the children, in container order. */
  method OccurrenceIndices(chunks: seq<Chunk>) returns (indices: seq<nat>)
    ensures |indices| == |chunks|
    ensures forall k :: 0 <= k < |chunks| ==> indices[k] == Occurrence(chunks, k)
  {
    var indexMap: map<(int, int), nat> := map[];
    indices := [];
    for k := 0 to |chunks|
      invariant |indices| == k
      invariant forall j :: 0 <= j < k ==> indices[j] == Occurrence(chunks, j)
      invariant forall typ, id :: Seen(indexMap, typ, id) == CountMatches(chunks[..k], typ, id)
    {
      var chunk := chunks[k];
      var index := Seen(indexMap, chunk.typ, chunk.id);
      ghost var before := indexMap;
      indexMap := indexMap[(chunk.typ, chunk.id) := index + 1];
      forall typ, id
        ensures Seen(indexMap, typ, id) == CountMatches(chunks[..k + 1], typ, id)
      {
        CountMatchesPrefixStep(chunks, k, typ, id);
      }
      indices := indices + [index];
    }
  }

  /** Occurrence counts never decrease along the container. */
  lemma {:induction false} CountMatchesGrows(s: seq<Chunk>, j: nat, k: nat, typ: int, id: int)
    requires j <= k <= |s|
    ensures CountMatches(s[..j], typ, id) <= CountMatches(s[..k], typ, id)
    decreases k - j
  {
    if j < k {
      CountMatchesPrefixStep(s, j, typ, id);
      CountMatchesGrows(s, j + 1, k, typ, id);
    }
  }

  /** The chunk address built from a child's (type, id, occurrence) selects that very child. */
  lemma {:induction false} OccurrenceSelectsChild(chunks: seq<Chunk>, k: nat)
    requires k < |chunks|
    ensures MatchIndex(chunks, chunks[k].typ, chunks[k].id, Occurrence(chunks, k)) == Some(k)
    ensures GetChunkById(ChunkFile(chunks), chunks[k].typ, chunks[k].id, Occurrence(chunks, k)) == Some(chunks[k])
  {
    MatchIndexUnique(chunks, chunks[k].typ, chunks[k].id, Occurrence(chunks, k), k);
  }

  /** The list keys `type,id,index` are pairwise distinct within one container. */
  lemma OccurrenceKeysDistinct(chunks: seq<Chunk>, j: nat, k: nat)
    requires j < k < |chunks|
    ensures (chunks[j].typ, chunks[j].id, Occurrence(chunks, j)) != (chunks[k].typ, chunks[k].id, Occurrence(chunks, k))
  {
    var c := chunks[j];
    if c.typ == chunks[k].typ && c.id == chunks[k].id {
      CountMatchesPrefixStep(chunks, j, c.typ, c.id);
      CountMatchesGrows(chunks, j + 1, k, c.typ, c.id);
    }
  }

  // ---------------------------------------------------------------------
  // Sector-mapped sub-archives

  /** Number of files of the archive whose three sub-archives are cut by sector maps. */
  const SectorMappedArchiveFiles: nat := 1434

  /** The file whose chunk file holds the sector maps. */
  const SectorMapFile: nat := 533

  /** `sector_map_path`: the address of the sector map that cuts root file `index`, if any. */
  function SectorMapPath(isRootFile: bool, numFiles: nat, index: nat): (r: Option<Path>)
    ensures r.Some? ==> isRootFile && numFiles == SectorMappedArchiveFiles && index in {144, 145, 576}
    ensures isRootFile && numFiles == SectorMappedArchiveFiles && index in {144, 145, 576} ==> r.Some?
    ensures r.Some? ==> r.value.ChunkAt? && r.value.typ == SectorMapType && r.value.id == 0 &&
                        r.value.parent == AsChunkFile(File(Root, SectorMapFile))
  {
    if isRootFile && numFiles == SectorMappedArchiveFiles then
      var container := AsChunkFile(File(Root, SectorMapFile));
      if index == 576 then Some(ChunkAt(container, SectorMapType, 0, 2))
      else if index == 144 then Some(ChunkAt(container, SectorMapType, 0, 0))
      else if index == 145 then Some(ChunkAt(container, SectorMapType, 0, 1))
      else None
    else None
  }

  /** Files 144, 145 and 576 take the first, second and third sector map; no two files share one. */
  lemma SectorMapsDistinct(i: nat, j: nat)
    requires i != j
    requires SectorMapPath(true, SectorMappedArchiveFiles, i).Some?
    ensures SectorMapPath(true, SectorMappedArchiveFiles, i) != SectorMapPath(true, SectorMappedArchiveFiles, j)
    ensures SectorMapPath(true, SectorMappedArchiveFiles, i).value.index == (if i == 144 then 0 else if i == 145 then 1 else 2)
  {
  }

  // ---------------------------------------------------------------------
  // Decode trial order

  datatype Decoded =
    | SubArchive(gamefile: Gamefile)
    | AsChunks(chunkFile: ChunkFile)
    | AsChunk(chunk: Chunk)
    | VagNamed(name: string)
    | Undecoded

  /** What a file's contents are shown as: sub-archive if sector-mapped, else the first decoder that accepts it. */
  function Probe(c: Codecs, blob: Blob, sectorMap: Option<SectorMap>): (r: Decoded)
    ensures sectorMap.Some? <==> r.SubArchive?
    ensures r.AsChunks? <==> sectorMap.None? && c.decodeChunkFile(blob.bytes).Ok?
    ensures r.AsChunk? <==> sectorMap.None? && c.decodeChunkFile(blob.bytes).Err? && c.decodeChunk(blob.bytes).Ok?
    ensures r.VagNamed? <==> sectorMap.None? && c.decodeChunkFile(blob.bytes).Err? && c.decodeChunk(blob.bytes).Err? &&
                             c.vagName(blob.bytes).Ok?
  {
    if sectorMap.Some? then SubArchive(c.carve(blob, sectorMap.value))
    else match c.decodeChunkFile(blob.bytes)
      case Ok(cf) => AsChunks(cf)
      case Err(_) =>
        match c.decodeChunk(blob.bytes)
        case Ok(ch) => AsChunk(ch)
        case Err(_) =>
          match c.vagName(blob.bytes)
          case Ok(name) => VagNamed(name)
          case Err(_) => Undecoded
  }

  /** Nothing is shown only when there is no sector map and every decoder refuses the contents. */
  lemma ProbeUndecoded(c: Codecs, blob: Blob, sectorMap: Option<SectorMap>)
    ensures Probe(c, blob, sectorMap).Undecoded? <==>
            sectorMap.None? && c.decodeChunkFile(blob.bytes).Err? && c.decodeChunk(blob.bytes).Err? && c.vagName(blob.bytes).Err?
  {
  }

  // ---------------------------------------------------------------------
  // The file list of an archive

  /** `FilesList`'s address loop: one file address per index under `path`. */
  method FileAddresses(path: Path, numFiles: nat) returns (paths: seq<Path>)
    ensures |paths| == numFiles
    ensures forall i :: 0 <= i < numFiles ==> paths[i] == File(path, i)
  {
    paths := [];
    for i := 0 to numFiles
      invariant |paths| == i
      invariant forall j :: 0 <= j < i ==> paths[j] == File(path, j)
    {
      paths := paths + [File(path, i)];
    }
  }

  /** The file addresses are children of the archive's address, and pairwise distinct. */
  lemma FileAddressesDistinct(path: Path, numFiles: nat, paths: seq<Path>, i: nat, j: nat)
    requires |paths| == numFiles && forall k :: 0 <= k < numFiles ==> paths[k] == File(path, k)
    requires i < j < numFiles
    ensures paths[i] != paths[j] && Parent(paths[i]) == Some(path)
  {
  }

  // ---------------------------------------------------------------------
  // Size warning

  /**
   * The size-mismatch warning: shown when the containing file's size is
   * known (and not 0) and the contents are more than 2048 bytes smaller.
   */
  function SizeMismatch(containerSize: Option<int>, size: int): (warn: bool)
    ensures warn <==> containerSize.Some? && containerSize.value != 0 && size < containerSize.value - 2048
  {
    match containerSize
    case None => false
    case Some(total) => total != 0 && size < total - 2048
  }

  /** The slack of one 2048-byte sector: contents filling the container up to the last sector never warn. */
  lemma SizeMismatchSlack(total: int, size: int)
    requires total - 2048 <= size
    ensures !SizeMismatch(Some(total), size)
  {
  }
}
