/**
 * Reading (`resolve`) and writing (`replace`) through a path.
 *
 * `resolve` decodes the value at an address; `replace` rebuilds the parent's
 * value on a copy with the one slot changed and hands it to the parent, up
 * to the root, which yields a new archive. The archive given is never
 * changed.
 *
 * Both consult and fill memo tables: the three decode caches, each byte
 * window's per-node slice cache and each sub-archive node's cache. These are
 * the `Store`, threaded through every call; `next` is the identity the next
 * newly made blob object receives.
 */
module PathOps {
  import opened Wrappers
  import opened Archive
  import opened Paths
  import opened BlobCaches
  import opened ChunkSelect

  /** The value at an address, one alternative per path kind. */
  datatype Value =
    | GamefileV(gamefile: Gamefile)
    | BlobV(blob: Blob)
    | ChunkFileV(chunkFile: ChunkFile)
    | ChunkV(chunk: Chunk)
    | ModelsV(models: InstancedModels)
    | VagV(vag: VagAudio)
  {
    function Kind(): Kind {
      match this
      case GamefileV(_) => GamefileK
      case BlobV(_) => BlobK
      case ChunkFileV(_) => ChunkFileK
      case ChunkV(_) => ChunkK
      case ModelsV(_) => ModelsK
      case VagV(_) => VagK
    }
  }

  datatype Store = Store(
    next: nat,
    caches: Caches,
    slices: map<(Path, Blob), Blob>,
    subGamefiles: map<(Path, Gamefile), Gamefile>)

  /** A newly made blob object (`new Blob(...)`, `to_blob()`, `blob.slice(...)`). */
  function NewBlob(st: Store, bytes: seq<bv8>): (out: (Blob, Store))
    ensures out.0.bytes == bytes && out.0.tag == st.next
    ensures out.1 == st.(next := st.next + 1)
  {
    (Blob(st.next, bytes), st.(next := st.next + 1))
  }

  predicate MapExtends<K, V(==)>(m: map<K, V>, m': map<K, V>) {
    forall k :: k in m ==> k in m' && m'[k] == m[k]
  }

  /** Nothing stored is lost or changed; blob identities keep counting up. */
  predicate Extends(s: Store, s': Store) {
    s.next <= s'.next
    && MapExtends(s.caches.chunkFiles, s'.caches.chunkFiles)
    && MapExtends(s.caches.chunks, s'.caches.chunks)
    && MapExtends(s.caches.models, s'.caches.models)
    && MapExtends(s.slices, s'.slices)
    && MapExtends(s.subGamefiles, s'.subGamefiles)
  }

  predicate KeepsBlobEntries<V(==)>(m: map<Blob, V>, m': map<Blob, V>, next: nat) {
    forall k :: k in m && k.tag < next ==> k in m' && m'[k] == m[k]
  }

  /**
   * Entries keyed by blobs that existed before (identity below `s.next`) are
   * kept; only entries for newly made blobs are written.
   */
  predicate KeepsOld(s: Store, s': Store) {
    s.next <= s'.next
    && KeepsBlobEntries(s.caches.chunkFiles, s'.caches.chunkFiles, s.next)
    && KeepsBlobEntries(s.caches.chunks, s'.caches.chunks, s.next)
    && KeepsBlobEntries(s.caches.models, s'.caches.models, s.next)
    && (forall k :: k in s.slices && k.1.tag < s.next ==> k in s'.slices && s'.slices[k] == s.slices[k])
  }

  lemma KeepsOldTransitive(a: Store, b: Store, c: Store)
    requires KeepsOld(a, b) && KeepsOld(b, c)
    ensures KeepsOld(a, c)
  {
  }

  /** Sub-archive cache entries a resolve adds are keyed by paths no larger than the one resolved. */
  predicate AddsWithin(s: Store, s': Store, size: nat) {
    forall k :: k in s'.subGamefiles && k !in s.subGamefiles ==> Size(k.0) <= size
  }

  // ---------------------------------------------------------------------
  // Byte windows

  function EndIndex(b: seq<bv8>, end: Option<int>): int {
    match end
    case None => |b|
    case Some(e) => e
  }

  /** `blob.slice(start, end).size`. */
  function WindowSize(b: seq<bv8>, start: int, end: Option<int>): nat {
    |SliceBytes(b, start, EndIndex(b, end))|
  }

  /** The parent blob a byte-window `replace` builds: prefix, replacement, rest. */
  function SpliceWindow(b: seq<bv8>, start: int, repl: seq<bv8>): seq<bv8> {
    SliceBytes(b, 0, start) + repl + SliceBytes(b, start + |repl|, |b|)
  }

  /**
   * A replacement that fits the window lands at `start`, the blob keeps its
   * length and every byte outside the replaced span is kept.
   */
  lemma SpliceWindowShape(b: seq<bv8>, start: int, end: Option<int>, repl: seq<bv8>)
    requires 0 <= start && |repl| <= WindowSize(b, start, end)
    ensures var r := SpliceWindow(b, start, repl);
      |r| == |b|
      && (repl != [] ==> r[start..start + |repl|] == repl)
      && (forall i :: 0 <= i < |b| && !(start <= i < start + |repl|) ==> r[i] == b[i])
  {
    if start > |b| {
      assert WindowSize(b, start, end) == 0;
    } else {
      assert SliceBytes(b, 0, start) == b[..start];
      var e := ClampIndex(EndIndex(b, end), |b|);
      assert start + |repl| <= |b|;
      assert SliceBytes(b, start + |repl|, |b|) == b[start + |repl|..];
    }
  }

  // ---------------------------------------------------------------------
  // Instanced-model lists

  /** `models.models[index]` followed by the checks of the instanced-model `resolve`. */
  function GetModel(m: InstancedModels, index: nat, isLod: bool): (r: Result<Chunk>)
    ensures r.Ok? <==> index < |m.models| && m.models[index].Some?
                       && (if isLod then m.models[index].value.lodModel.Some? else m.models[index].value.model.Some?)
    ensures r.Ok? ==> Some(r.value) == (if isLod then m.models[index].value.lodModel else m.models[index].value.model)
  {
    if index >= |m.models| || m.models[index].None? then Err(NotFound("model index"))
    else
      var entry := m.models[index].value;
      if isLod then
        (if entry.lodModel.None? then Err(NotFound("LOD model")) else Ok(entry.lodModel.value))
      else
        (if entry.model.None? then Err(NotFound("model")) else Ok(entry.model.value))
  }

  /**
   * The instanced-model `replace` on a copy of the list: a shallow copy of
   * entry `index` (an empty one if the slot is missing) with only `model` or
   * `lodModel` set. Writing past the end grows the list, leaving holes.
   */
  function SetModel(m: InstancedModels, index: nat, isLod: bool, v: Chunk): (r: InstancedModels)
    ensures |r.models| == if index < |m.models| then |m.models| else index + 1
    ensures r.models[index].Some?
    ensures isLod ==> r.models[index].value.lodModel == Some(v)
    ensures !isLod ==> r.models[index].value.model == Some(v)
    ensures index < |m.models| && m.models[index].Some? ==>
              if isLod then r.models[index].value.model == m.models[index].value.model
              else r.models[index].value.lodModel == m.models[index].value.lodModel
    ensures forall j :: 0 <= j < |r.models| && j != index ==> r.models[j] == if j < |m.models| then m.models[j] else None
  {
    var entry := if index < |m.models| && m.models[index].Some? then m.models[index].value else ModelEntry(None, None);
    var entry' := if isLod then entry.(lodModel := Some(v)) else entry.(model := Some(v));
    var padded := if index < |m.models| then m.models else m.models + seq(index + 1 - |m.models|, _ => None);
    InstancedModels(padded[index := Some(entry')])
  }

  /** Reading back the slot just written yields the written chunk. */
  lemma SetModelThenGet(m: InstancedModels, index: nat, isLod: bool, v: Chunk)
    ensures GetModel(SetModel(m, index, isLod, v), index, isLod) == Ok(v)
  {
  }

  // ---------------------------------------------------------------------
  // resolve

  /** A resolved value has the kind of its path; a chunk address yields a chunk with its type and id. */
  predicate ResolvedFits(p: Path, r: Result<Value>) {
    r.Ok? ==> r.value.Kind() == KindOf(p) && (p.ChunkAt? ==> Matches(r.value.chunk, p.typ, p.id))
  }

  /** `resolve(gamefile)` of any path: the value at the address, or the error it throws. */
  function Resolve(c: Codecs, p: Path, g: Gamefile, st: Store): (out: (Result<Value>, Store))
    requires WellTyped(p)
    ensures ResolvedFits(p, out.0)
    ensures Extends(st, out.1)
    ensures AddsWithin(st, out.1, Size(p))
    decreases p
  {
    if p.Root? then (Ok(GamefileV(g)), st)
    else if p.SubGamefile? then
      if (p, g) in st.subGamefiles then (Ok(GamefileV(st.subGamefiles[(p, g)])), st)
      else
        var sm := SectorMapAt(c, Resolve(c, p.sectorMapRef, g, st));
        if sm.0.Err? then (Err(sm.0.error), sm.1)
        else
          var rb := Resolve(c, p.parent, g, sm.1);
          if rb.0.Err? then (Err(rb.0.error), rb.1)
          else
            var sub := c.carve(rb.0.value.blob, sm.0.value);
            (Ok(GamefileV(sub)), rb.1.(subGamefiles := rb.1.subGamefiles[(p, g) := sub]))
    else
      ResolveStep(c, p, Resolve(c, p.parent, g, st))
  }

  /** Decode the sector-map record held in the contents of a resolved chunk. */
  function SectorMapAt(c: Codecs, chunk: (Result<Value>, Store)): (out: (Result<SectorMap>, Store))
    requires chunk.0.Ok? ==> chunk.0.value.ChunkV?
    ensures out.1 == chunk.1
    ensures out.0.Ok? ==> chunk.0.Ok? && c.decodeSectorMap(chunk.0.value.chunk.contents.bytes) == out.0
  {
    if chunk.0.Err? then (Err(chunk.0.error), chunk.1)
    else (c.decodeSectorMap(chunk.0.value.chunk.contents.bytes), chunk.1)
  }

  /** One segment of `resolve`, given what its parent resolved to. */
  function ResolveStep(c: Codecs, p: Path, parent: (Result<Value>, Store)): (out: (Result<Value>, Store))
    requires WellTyped(p) && !p.Root? && !p.SubGamefile?
    requires ResolvedFits(p.parent, parent.0)
    ensures ResolvedFits(p, out.0)
    ensures Extends(parent.1, out.1)
    ensures out.1.subGamefiles == parent.1.subGamefiles
    ensures parent.0.Err? ==> out == (Err(parent.0.error), parent.1)
  {
    var (rq, s1) := parent;
    if rq.Err? then (Err(rq.error), s1)
    else match p
    case File(_, i) =>
      (match GetFile(rq.value.gamefile, i)
       case Err(e) => (Err(e), s1)
       case Ok(b) => (Ok(BlobV(b)), s1))
    case AsChunkFile(_) =>
      var (r, m) := Lookup(s1.caches.chunkFiles, rq.value.blob, c.decodeChunkFile);
      var s2 := s1.(caches := s1.caches.(chunkFiles := m));
      (match r
       case Err(e) => (Err(e), s2)
       case Ok(cf) => (Ok(ChunkFileV(cf)), s2))
    case AsSingleChunk(_) =>
      var (r, m) := Lookup(s1.caches.chunks, rq.value.blob, c.decodeChunk);
      var s2 := s1.(caches := s1.caches.(chunks := m));
      (match r
       case Err(e) => (Err(e), s2)
       case Ok(ch) => (Ok(ChunkV(ch)), s2))
    case ChunkAt(_, t, id, n) =>
      (match GetChunkById(rq.value.chunkFile, t, id, n)
       case None => (Err(NotFound("chunk")), s1)
       case Some(ch) => (Ok(ChunkV(ch)), s1))
    case ChunkContents(_) => (Ok(BlobV(rq.value.chunk.contents)), s1)
    case BlobSlice(_, start, end) =>
      var blob := rq.value.blob;
      if (p, blob) in s1.slices then (Ok(BlobV(s1.slices[(p, blob)])), s1)
      else
        var (sliced, s2) := NewBlob(s1, SliceBytes(blob.bytes, start, EndIndex(blob.bytes, end)));
        (Ok(BlobV(sliced)), s2.(slices := s2.slices[(p, blob) := sliced]))
    case AsInstancedModels(_) =>
      var (r, m) := Lookup(s1.caches.models, rq.value.blob, c.decodeModels);
      var s2 := s1.(caches := s1.caches.(models := m));
      (match r
       case Err(e) => (Err(e), s2)
       case Ok(ms) => (Ok(ModelsV(ms)), s2))
    case InstancedModel(_, index, isLod) =>
      (match GetModel(rq.value.models, index, isLod)
       case Err(e) => (Err(e), s1)
       case Ok(ch) => (Ok(ChunkV(ch)), s1))
    case AsVag(_) =>
      (match c.decodeVag(rq.value.blob.bytes)
       case Err(e) => (Err(e), s1)
       case Ok(a) => (Ok(VagV(a)), s1))
  }

  // ---------------------------------------------------------------------
  // replace

  /** `replace(gamefile, replacement)` of any path: the new archive, or the error it throws. */
  function Replace(c: Codecs, p: Path, g: Gamefile, v: Value, st: Store): (out: (Result<Gamefile>, Store))
    requires WellTyped(p) && v.Kind() == KindOf(p)
    ensures KeepsOld(st, out.1)
    decreases p
  {
    if p.Root? then (Ok(v.gamefile), st)
    else if p.SubGamefile? then
      var h := NewSectorMapChunk(c, p, g, v, st);
      if h.0.Err? then (Err(h.0.error), h.1)
      else
        var r1 := Replace(c, p.sectorMapRef, g, ChunkV(h.0.value), h.1);
        KeepsOldTransitive(st, h.1, r1.1);
        if r1.0.Err? then r1
        else
          var r2 := Replace(c, p.parent, r1.0.value, BlobV(c.gamefileBlob(v.gamefile)), r1.1);
          KeepsOldTransitive(st, r1.1, r2.1);
          if r2.0.Err? then r2
          else (r2.0, r2.1.(subGamefiles := r2.1.subGamefiles[(p, r2.0.value) := v.gamefile]))
    else
      var h := Handoff(c, p, g, v, st);
      if h.0.Err? then (Err(h.0.error), h.1)
      else
        var r := Replace(c, p.parent, g, h.0.value, h.1);
        KeepsOldTransitive(st, h.1, r.1);
        r
  }

  /**
   * The first half of a sub-archive `replace`: read the current sector map,
   * take the replacement's file table, encode it to a new blob and put it
   * into the sector-map chunk (read again, as its contents address does).
   */
  function NewSectorMapChunk(c: Codecs, p: Path, g: Gamefile, v: Value, st: Store): (out: (Result<Chunk>, Store))
    requires WellTyped(p) && p.SubGamefile? && v.GamefileV?
    ensures KeepsOld(st, out.1)
    ensures out.0.Ok? && p.sectorMapRef.ChunkAt? ==> Matches(out.0.value, p.sectorMapRef.typ, p.sectorMapRef.id)
  {
    var sm := SectorMapAt(c, Resolve(c, p.sectorMapRef, g, st));
    if sm.0.Err? then (Err(sm.0.error), sm.1)
    else
      var (sectors, sizes) := c.sectorTable(v.gamefile);
      var (smBlob, s2) := NewBlob(sm.1, c.encodeSectorMap(sm.0.value.(sectors := sectors, sizes := sizes)));
      var (rc, s3) := Resolve(c, p.sectorMapRef, g, s2);
      if rc.Err? then (Err(rc.error), s3)
      else (Ok(rc.value.chunk.(contents := smBlob)), s3)
  }

  /**
   * One segment of `replace`: the value it hands to its parent's `replace`
   * (the parent's value rebuilt on a copy with the one slot changed, or the
   * replacement encoded to a new blob), or the error it throws.
   */
  function Handoff(c: Codecs, p: Path, g: Gamefile, v: Value, st: Store): (out: (Result<Value>, Store))
    requires WellTyped(p) && !p.Root? && !p.SubGamefile? && v.Kind() == KindOf(p)
    ensures out.0.Ok? ==> out.0.value.Kind() == KindOf(p.parent)
    ensures KeepsOld(st, out.1)
  {
    match p
    case File(q, i) =>
      var (rg, s1) := Resolve(c, q, g, st);
      if rg.Err? then (Err(rg.error), s1)
      else (match ReplaceFile(rg.value.gamefile, i, v.blob)
            case Err(e) => (Err(e), s1)
            case Ok(g2) => (Ok(GamefileV(g2)), s1))
    case AsChunkFile(_) =>
      var (b, s1) := NewBlob(st, c.encodeChunkFile(v.chunkFile));
      (Ok(BlobV(b)), s1.(caches := s1.caches.(chunkFiles := s1.caches.chunkFiles[b := Ok(v.chunkFile)])))
    case AsSingleChunk(_) =>
      var (b, s1) := NewBlob(st, c.encodeChunk(v.chunk));
      (Ok(BlobV(b)), s1.(caches := s1.caches.(chunks := s1.caches.chunks[b := Ok(v.chunk)])))
    case ChunkAt(q, t, id, n) =>
      var (rf, s1) := Resolve(c, q, g, st);
      if rf.Err? then (Err(rf.error), s1)
      else (match ReplaceOccurrence(rf.value.chunkFile.chunks, t, id, n, v.chunk)
            case None => (Err(NotFound("chunk")), s1)
            case Some(chunks) => (Ok(ChunkFileV(rf.value.chunkFile.(chunks := chunks))), s1))
    case ChunkContents(q) =>
      var (rc, s1) := Resolve(c, q, g, st);
      if rc.Err? then (Err(rc.error), s1)
      else (Ok(ChunkV(rc.value.chunk.(contents := v.blob))), s1)
    case BlobSlice(q, start, end) =>
      var (rb, s1) := Resolve(c, q, g, st);
      if rb.Err? then (Err(rb.error), s1)
      else
        var blob := rb.value.blob;
        var size := WindowSize(blob.bytes, start, end);
        if size < |v.blob.bytes| then (Err(SliceOverflow), s1)
        else
          var (nb, s2) := NewBlob(s1, SpliceWindow(blob.bytes, start, v.blob.bytes));
          (Ok(BlobV(nb)), if size == |v.blob.bytes| then s2.(slices := s2.slices[(p, nb) := v.blob]) else s2)
    case AsInstancedModels(_) =>
      var (b, s1) := NewBlob(st, c.encodeModels(v.models));
      (Ok(BlobV(b)), s1)
    case InstancedModel(q, index, isLod) =>
      var (rm, s1) := Resolve(c, q, g, st);
      if rm.Err? then (Err(rm.error), s1)
      else (Ok(ModelsV(SetModel(rm.value.models, index, isLod, v.chunk))), s1)
    case AsVag(_) =>
      var (b, s1) := NewBlob(st, c.encodeVag(v.vag));
      (Ok(BlobV(b)), s1)
  }
}

module PathLaws {
  import opened Wrappers
  import opened Archive
  import opened Paths
  import opened BlobCaches
  import opened ChunkSelect
  import opened PathOps

  lemma ExtendsTransitive(a: Store, b: Store, c: Store)
    requires Extends(a, b) && Extends(b, c)
    ensures Extends(a, c)
  {
  }

  /**
   * The memo tables are sound: a value once resolved is resolved again,
   * unchanged, from any later store that kept every entry.
   */
  lemma {:induction false} ResolveStable(c: Codecs, p: Path, g: Gamefile, st: Store, later: Store)
    requires WellTyped(p)
    requires Resolve(c, p, g, st).0.Ok?
    requires Extends(Resolve(c, p, g, st).1, later)
    ensures Resolve(c, p, g, later).0 == Resolve(c, p, g, st).0
    decreases p
  {
    var (r, s1) := Resolve(c, p, g, st);
    if p.Root? {
    } else if p.SubGamefile? {
      if (p, g) !in st.subGamefiles {
        assert (p, g) in s1.subGamefiles && r == Ok(GamefileV(s1.subGamefiles[(p, g)]));
      }
    } else {
      var before := Resolve(c, p.parent, g, st);
      assert Resolve(c, p, g, st) == ResolveStep(c, p, before);
      assert before.0.Ok?;
      ExtendsTransitive(before.1, s1, later);
      ResolveStable(c, p.parent, g, st, later);
      var after := Resolve(c, p.parent, g, later);
      assert Resolve(c, p, g, later) == ResolveStep(c, p, after);
      ExtendsTransitive(s1, later, after.1);
      StepStable(c, p, before, after);
    }
  }

  /** One segment resolves to the same value from a parent result that kept every memo entry. */
  lemma {:induction false} StepStable(c: Codecs, p: Path, before: (Result<Value>, Store), after: (Result<Value>, Store))
    requires WellTyped(p) && !p.Root? && !p.SubGamefile?
    requires ResolvedFits(p.parent, before.0) && before.0.Ok? && after.0 == before.0
    requires ResolveStep(c, p, before).0.Ok?
    requires Extends(ResolveStep(c, p, before).1, after.1)
    ensures ResolveStep(c, p, after).0 == ResolveStep(c, p, before).0
  {
    var rq := before.0;
    var s1 := ResolveStep(c, p, before).1;
    match p {
      case AsChunkFile(_) =>
        assert rq.value.blob in s1.caches.chunkFiles;
      case AsSingleChunk(_) =>
        assert rq.value.blob in s1.caches.chunks;
      case AsInstancedModels(_) =>
        assert rq.value.blob in s1.caches.models;
      case BlobSlice(_, _, _) =>
        assert (p, rq.value.blob) in s1.slices;
      case _ =>
    }
  }

  /**
   * The addresses whose `replace` leaves a way back for `resolve`: each
   * segment either seeds a memo table with the replacement or rebuilds its
   * parent so that reading the slot yields it again.
   */
  predicate Seeding(p: Path) {
    match p
    case Root => true
    case SubGamefile(_, _) => true
    case File(q, _) => Seeding(q)
    case AsChunkFile(q) => Seeding(q)
    case AsSingleChunk(q) => Seeding(q)
    case ChunkAt(q, _, _, _) => Seeding(q)
    case ChunkContents(q) => Seeding(q)
    case BlobSlice(_, _, _) => false
    case AsInstancedModels(_) => false
    case InstancedModel(_, _, _) => false
    case AsVag(_) => false
  }

  /**
   * Resolve after replace: reading an address of the new archive, with the
   * memo tables as the replace left them, yields the replacement itself
   * (for a chunk address, one with the address's type and id).
   */
  lemma {:induction false} ResolveAfterReplace(c: Codecs, p: Path, g: Gamefile, v: Value, st: Store)
    requires WellTyped(p) && v.Kind() == KindOf(p) && Seeding(p)
    requires p.ChunkAt? ==> Matches(v.chunk, p.typ, p.id)
    ensures Replace(c, p, g, v, st).0.Ok? ==>
              Resolve(c, p, Replace(c, p, g, v, st).0.value, Replace(c, p, g, v, st).1).0 == Ok(v)
    decreases p
  {
    if p.Root? {
      return;
    } else if p.SubGamefile? {
      SubGamefileReadBack(c, p, g, v, st);
      return;
    }
    var (r, st1) := Replace(c, p, g, v, st);
    if r.Err? {
      return;
    }
    var h := Handoff(c, p, g, v, st);
    ReplaceUnfold(c, p, g, v, st);
    assert h.0.Ok?;
    assert Replace(c, p.parent, g, h.0.value, h.1) == (r, st1);
    HandoffFits(c, p, g, v, st);
    ResolveAfterReplace(c, p.parent, g, h.0.value, h.1);
    ReadBack(c, p, g, v, st, r.value, st1);
  }

  /** A replaced sub-archive is remembered under the new outer archive, so reading it back finds it. */
  lemma {:induction false} SubGamefileReadBack(c: Codecs, p: Path, g: Gamefile, v: Value, st: Store)
    requires WellTyped(p) && p.SubGamefile? && v.GamefileV?
    ensures Replace(c, p, g, v, st).0.Ok? ==>
              Resolve(c, p, Replace(c, p, g, v, st).0.value, Replace(c, p, g, v, st).1).0 == Ok(v)
  {
    var (r, st1) := Replace(c, p, g, v, st);
    if r.Ok? {
      assert (p, r.value) in st1.subGamefiles && st1.subGamefiles[(p, r.value)] == v.gamefile;
    }
  }

  /** What a segment hands to a chunk address is a chunk with that address's type and id. */
  lemma {:induction false} HandoffFits(c: Codecs, p: Path, g: Gamefile, v: Value, st: Store)
    requires WellTyped(p) && v.Kind() == KindOf(p) && !p.Root? && !p.SubGamefile?
    requires Handoff(c, p, g, v, st).0.Ok?
    ensures p.parent.ChunkAt? ==> Matches(Handoff(c, p, g, v, st).0.value.chunk, p.parent.typ, p.parent.id)
  {
    if p.ChunkContents? {
      assert ResolvedFits(p.parent, Resolve(c, p.parent, g, st).0);
    }
  }

  lemma {:induction false} ReplaceUnfold(c: Codecs, p: Path, g: Gamefile, v: Value, st: Store)
    requires WellTyped(p) && v.Kind() == KindOf(p) && !p.Root? && !p.SubGamefile?
    ensures var h := Handoff(c, p, g, v, st);
      Replace(c, p, g, v, st) == if h.0.Err? then (Err(h.0.error), h.1) else Replace(c, p.parent, g, h.0.value, h.1)
  {
  }

  /** One segment of the round trip: the parent reads back what this segment handed it. */
  lemma {:induction false} ReadBack(c: Codecs, p: Path, g: Gamefile, v: Value, st: Store, g2: Gamefile, st1: Store)
    requires WellTyped(p) && v.Kind() == KindOf(p) && Seeding(p) && !p.Root? && !p.SubGamefile?
    requires p.ChunkAt? ==> Matches(v.chunk, p.typ, p.id)
    requires Handoff(c, p, g, v, st).0.Ok?
    requires KeepsOld(Handoff(c, p, g, v, st).1, st1)
    requires Resolve(c, p.parent, g2, st1).0 == Handoff(c, p, g, v, st).0
    ensures Resolve(c, p, g2, st1).0 == Ok(v)
  {
    if p.AsChunkFile? || p.AsSingleChunk? {
      ReadBackDecoded(c, p, g, v, st, g2, st1);
    } else if p.ChunkAt? {
      ReadBackChunkAt(c, p, g, v, st, g2, st1);
    } else {
      ReadBackSlot(c, p, g, v, st, g2, st1);
    }
  }

  /** A file index or a chunk's contents reads the slot its handoff rebuilt. */
  lemma {:induction false} ReadBackSlot(c: Codecs, p: Path, g: Gamefile, v: Value, st: Store, g2: Gamefile, st1: Store)
    requires WellTyped(p) && v.Kind() == KindOf(p) && (p.File? || p.ChunkContents?)
    requires Handoff(c, p, g, v, st).0.Ok?
    requires Resolve(c, p.parent, g2, st1).0 == Handoff(c, p, g, v, st).0
    ensures Resolve(c, p, g2, st1).0 == Ok(v)
  {
    var (rq, sq) := Resolve(c, p.parent, g2, st1);
    assert Resolve(c, p, g2, st1) == ResolveStep(c, p, (rq, sq));
  }

  /** A decoding segment finds the replacement in the memo table its handoff seeded. */
  lemma {:induction false} ReadBackDecoded(c: Codecs, p: Path, g: Gamefile, v: Value, st: Store, g2: Gamefile, st1: Store)
    requires WellTyped(p) && v.Kind() == KindOf(p) && Seeding(p) && !p.Root? && !p.SubGamefile?
    requires p.ChunkAt? ==> Matches(v.chunk, p.typ, p.id)
    requires Handoff(c, p, g, v, st).0.Ok?
    requires KeepsOld(Handoff(c, p, g, v, st).1, st1)
    requires Resolve(c, p.parent, g2, st1).0 == Handoff(c, p, g, v, st).0
    requires p.AsChunkFile? || p.AsSingleChunk?
    ensures Resolve(c, p, g2, st1).0 == Ok(v)
  {
    var hv := Handoff(c, p, g, v, st).0.value;
    var hs := Handoff(c, p, g, v, st).1;
    var (rq, sq) := Resolve(c, p.parent, g2, st1);
    assert Resolve(c, p, g2, st1) == ResolveStep(c, p, (rq, sq));
    var b := hv.blob;
    if p.AsChunkFile? {
      assert b in hs.caches.chunkFiles && hs.caches.chunkFiles[b] == Ok(v.chunkFile);
      assert b in sq.caches.chunkFiles && sq.caches.chunkFiles[b] == Ok(v.chunkFile);
    } else {
      assert b in hs.caches.chunks && hs.caches.chunks[b] == Ok(v.chunk);
      assert b in sq.caches.chunks && sq.caches.chunks[b] == Ok(v.chunk);
    }
  }

  /** A chunk address selects, in the rebuilt chunk file, the chunk put in its slot. */
  lemma {:induction false} ReadBackChunkAt(c: Codecs, p: Path, g: Gamefile, v: Value, st: Store, g2: Gamefile, st1: Store)
    requires WellTyped(p) && v.Kind() == KindOf(p) && Seeding(p) && !p.Root? && !p.SubGamefile?
    requires p.ChunkAt? ==> Matches(v.chunk, p.typ, p.id)
    requires Handoff(c, p, g, v, st).0.Ok?
    requires KeepsOld(Handoff(c, p, g, v, st).1, st1)
    requires Resolve(c, p.parent, g2, st1).0 == Handoff(c, p, g, v, st).0
    requires p.ChunkAt?
    ensures Resolve(c, p, g2, st1).0 == Ok(v)
  {
    var (rq, sq) := Resolve(c, p.parent, g2, st1);
    assert Resolve(c, p, g2, st1) == ResolveStep(c, p, (rq, sq));
    var cf := Resolve(c, p.parent, g, st).0.value.chunkFile;
    ReplaceThenGet(cf.chunks, p.typ, p.id, p.index, v.chunk);
  }

  /**
   * A byte window replaced by a blob of exactly its size reads back as that
   * blob (the window's cache is seeded with it).
   */
  lemma {:induction false} SliceResolveAfterReplace(c: Codecs, p: Path, g: Gamefile, v: Value, st: Store)
    requires WellTyped(p) && p.BlobSlice? && v.BlobV? && Seeding(p.parent)
    requires Resolve(c, p.parent, g, st).0.Ok? ==>
               WindowSize(Resolve(c, p.parent, g, st).0.value.blob.bytes, p.start, p.end) == |v.blob.bytes|
    ensures Replace(c, p, g, v, st).0.Ok? ==>
              Resolve(c, p, Replace(c, p, g, v, st).0.value, Replace(c, p, g, v, st).1).0 == Ok(v)
  {
    var (r, st1) := Replace(c, p, g, v, st);
    if r.Err? {
      return;
    }
    var h := Handoff(c, p, g, v, st);
    ReplaceUnfold(c, p, g, v, st);
    ResolveAfterReplace(c, p.parent, g, h.0.value, h.1);
    var nb := h.0.value.blob;
    assert (p, nb) in h.1.slices && h.1.slices[(p, nb)] == v.blob;
    var (rq, sq) := Resolve(c, p.parent, r.value, st1);
    assert Resolve(c, p, r.value, st1) == ResolveStep(c, p, (rq, sq));
    assert (p, nb) in sq.slices && sq.slices[(p, nb)] == v.blob;
  }

  /** A byte window read for the first time from a blob is a new blob holding `blob.slice(start, end)`. */
  lemma {:induction false} SliceResolveIsWindow(c: Codecs, p: Path, g: Gamefile, st: Store)
    requires WellTyped(p) && p.BlobSlice?
    requires Resolve(c, p.parent, g, st).0.Ok?
    requires (p, Resolve(c, p.parent, g, st).0.value.blob) !in Resolve(c, p.parent, g, st).1.slices
    ensures var parent := Resolve(c, p.parent, g, st);
      var b := parent.0.value.blob.bytes;
      Resolve(c, p, g, st).0 == Ok(BlobV(Blob(parent.1.next, SliceBytes(b, p.start, EndIndex(b, p.end)))))
  {
  }

  /** A replacement longer than the window is refused. */
  lemma {:induction false} SliceReplaceOverflow(c: Codecs, p: Path, g: Gamefile, v: Value, st: Store)
    requires WellTyped(p) && p.BlobSlice? && v.BlobV?
    requires Resolve(c, p.parent, g, st).0.Ok?
    requires WindowSize(Resolve(c, p.parent, g, st).0.value.blob.bytes, p.start, p.end) < |v.blob.bytes|
    ensures Replace(c, p, g, v, st).0 == Err(SliceOverflow)
  {
    ReplaceUnfold(c, p, g, v, st);
  }

  /**
   * Replacing a chunk's contents rewrites exactly one record of its chunk
   * file: the selected occurrence, with only its contents swapped; the
   * record count and order are kept.
   */
  /** The contents address hands the chunk it selects, with the new contents, to the chunk address. */
  lemma HandoffContents(c: Codecs, q: Path, t: int, id: int, n: nat, g: Gamefile, b: Blob, st: Store)
    requires WellTyped(q) && q.AsChunkFile?
    requires Resolve(c, q, g, st).0.Ok?
    ensures var h1 := Handoff(c, ChunkContents(ChunkAt(q, t, id, n)), g, BlobV(b), st);
            var before := Resolve(c, q, g, st).0.value.chunkFile.chunks;
            h1.0.Ok? ==>
              MatchIndex(before, t, id, n).Some? &&
              h1.0 == Ok(ChunkV(before[MatchIndex(before, t, id, n).value].(contents := b))) &&
              h1.1 == Resolve(c, q, g, st).1
  {
    var chunkPath := ChunkAt(q, t, id, n);
    var before := Resolve(c, q, g, st).0.value.chunkFile.chunks;
    var rc := Resolve(c, chunkPath, g, st);
    assert rc == ResolveStep(c, chunkPath, Resolve(c, q, g, st));
    if MatchIndex(before, t, id, n).Some? {
      assert rc.0 == Ok(ChunkV(before[MatchIndex(before, t, id, n).value]));
    }
  }

  /** The chunk address hands its chunk file, with the selected record replaced, to the chunk file address. */
  lemma HandoffChunk(c: Codecs, q: Path, t: int, id: int, n: nat, g: Gamefile, ch: Chunk, st: Store)
    requires WellTyped(q) && q.AsChunkFile?
    requires Resolve(c, q, g, st).0.Ok?
    ensures var before := Resolve(c, q, g, st).0.value.chunkFile.chunks;
            MatchIndex(before, t, id, n).Some? ==>
              Handoff(c, ChunkAt(q, t, id, n), g, ChunkV(ch), st).0 ==
              Ok(ChunkFileV(ChunkFile(before[MatchIndex(before, t, id, n).value := ch])))
  {
    var before := Resolve(c, q, g, st).0.value.chunkFile.chunks;
    if MatchIndex(before, t, id, n).Some? {
      assert ReplaceOccurrence(before, t, id, n, ch) == Some(before[MatchIndex(before, t, id, n).value := ch]);
    }
  }

  lemma {:induction false} ContentsEditChangesOneRecord(c: Codecs, q: Path, t: int, id: int, n: nat, g: Gamefile, b: Blob, st: Store)
    requires WellTyped(q) && q.AsChunkFile? && Seeding(q)
    requires Resolve(c, q, g, st).0.Ok?
    ensures var p := ChunkContents(ChunkAt(q, t, id, n));
      var (r, st1) := Replace(c, p, g, BlobV(b), st);
      var before := Resolve(c, q, g, st).0.value.chunkFile.chunks;
      r.Ok? ==> exists k :: 0 <= k < |before| && MatchIndex(before, t, id, n) == Some(k)
                  && Resolve(c, q, r.value, st1).0
                     == Ok(ChunkFileV(ChunkFile(before[k := before[k].(contents := b)])))
  {
    var chunkPath := ChunkAt(q, t, id, n);
    var p := ChunkContents(chunkPath);
    var (r, st1) := Replace(c, p, g, BlobV(b), st);
    if r.Err? {
      return;
    }
    var before := Resolve(c, q, g, st).0.value.chunkFile.chunks;
    // the contents address reads the chunk (reading its chunk file) ...
    ReplaceUnfold(c, p, g, BlobV(b), st);
    var h1 := Handoff(c, p, g, BlobV(b), st);
    HandoffContents(c, q, t, id, n, g, b, st);
    var k := MatchIndex(before, t, id, n).value;
    var edited := before[k].(contents := b);
    assert h1.0 == Ok(ChunkV(edited));
    // ... then the chunk address reads the chunk file again, unchanged
    ReplaceUnfold(c, chunkPath, g, ChunkV(edited), h1.1);
    var h2 := Handoff(c, chunkPath, g, ChunkV(edited), h1.1);
    ResolveStable(c, q, g, st, h1.1);
    assert Resolve(c, q, g, h1.1).0 == Resolve(c, q, g, st).0;
    HandoffChunk(c, q, t, id, n, g, edited, h1.1);
    ResolveAfterReplace(c, q, g, h2.0.value, h2.1);
  }
}
