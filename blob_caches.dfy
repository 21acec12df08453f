/**
 * The process-wide decode caches: for each blob object, the decoded chunk
 * file, single chunk or instanced-model list, stored the first time it is
 * asked for. A stored decode failure stays stored (the cache holds the
 * rejected promise), so the `Result` is what is cached.
 */
module BlobCaches {
  import opened Wrappers
  import opened Archive

  /** One identity-keyed cache: look `b` up, decoding and storing on a miss. */
  function Lookup<V>(cache: map<Blob, Result<V>>, b: Blob, decode: seq<bv8> -> Result<V>)
    : (out: (Result<V>, map<Blob, Result<V>>))
    ensures b in out.1 && out.1[b] == out.0
    ensures b in cache ==> out.0 == cache[b]
    ensures b !in cache ==> out.0 == decode(b.bytes)
    ensures out.1.Keys == cache.Keys + {b}
    ensures forall k :: k in cache ==> out.1[k] == cache[k]
  {
    if b in cache then (cache[b], cache)
    else var v := decode(b.bytes); (v, cache[b := v])
  }

  /** A second lookup of the same blob returns the same value and changes nothing. */
  lemma LookupTwice<V>(cache: map<Blob, Result<V>>, b: Blob, decode: seq<bv8> -> Result<V>)
    ensures var (v1, cache1) := Lookup(cache, b, decode);
            Lookup(cache1, b, decode) == (v1, cache1)
  {
  }

  /**
   * Blobs are keyed by identity: filling the entry of one blob leaves the
   * entry of any other blob alone, even one with the very same bytes.
   */
  lemma LookupKeyedByIdentity<V>(cache: map<Blob, Result<V>>, b1: Blob, b2: Blob, decode: seq<bv8> -> Result<V>)
    requires b1 != b2
    ensures var (_, cache1) := Lookup(cache, b1, decode);
            (b2 in cache1 <==> b2 in cache) && (b2 in cache ==> cache1[b2] == cache[b2])
  {
  }

  /** The three caches the editor keeps, by what they decode to. */
  datatype Caches = Caches(
    chunkFiles: map<Blob, Result<ChunkFile>>,
    chunks: map<Blob, Result<Chunk>>,
    models: map<Blob, Result<InstancedModels>>)

  /** `BlobCaches`: the static maps as fields, written on a miss. */
  class DecodeCaches {
    var chunkFiles: map<Blob, Result<ChunkFile>>
    var chunks: map<Blob, Result<Chunk>>
    var models: map<Blob, Result<InstancedModels>>

    constructor ()
      ensures chunkFiles == map[] && chunks == map[] && models == map[]
    {
      chunkFiles := map[];
      chunks := map[];
      models := map[];
    }

    /** `resolve_chunk_file`: only the chunk-file cache can change. */
    method ResolveChunkFile(b: Blob, codecs: Codecs) returns (r: Result<ChunkFile>)
      modifies this
      ensures (r, chunkFiles) == Lookup(old(chunkFiles), b, codecs.decodeChunkFile)
      ensures chunks == old(chunks) && models == old(models)
    {
      if b in chunkFiles {
        r := chunkFiles[b];
        return;
      }
      r := codecs.decodeChunkFile(b.bytes);
      chunkFiles := chunkFiles[b := r];
    }

    /** `resolve_chunk`: only the single-chunk cache can change. */
    method ResolveChunk(b: Blob, codecs: Codecs) returns (r: Result<Chunk>)
      modifies this
      ensures (r, chunks) == Lookup(old(chunks), b, codecs.decodeChunk)
      ensures chunkFiles == old(chunkFiles) && models == old(models)
    {
      if b in chunks {
        r := chunks[b];
        return;
      }
      r := codecs.decodeChunk(b.bytes);
      chunks := chunks[b := r];
    }

    /** `resolve_instanced_models`: only the instanced-models cache can change. */
    method ResolveInstancedModels(b: Blob, codecs: Codecs) returns (r: Result<InstancedModels>)
      modifies this
      ensures (r, models) == Lookup(old(models), b, codecs.decodeModels)
      ensures chunkFiles == old(chunkFiles) && chunks == old(chunks)
    {
      if b in models {
        r := models[b];
        return;
      }
      r := codecs.decodeModels(b.bytes);
      models := models[b := r];
    }
  }
}
