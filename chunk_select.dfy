/**
 * Occurrence selection inside a chunk file: chunk (type, id, n) is the
 * (n+1)-th chunk, in container order, whose type and id both match. Reading
 * (`get_chunk_by_id`) and writing (the counting loop of the chunk address's
 * `replace`) use this one rule.
 */
module ChunkSelect {
  import opened Wrappers
  import opened Archive

  predicate Matches(c: Chunk, typ: int, id: int) {
    c.typ == typ && c.id == id
  }

  /** How many chunks of `s` match (typ, id). */
  function CountMatches(s: seq<Chunk>, typ: int, id: int): (r: nat)
    ensures r <= |s|
  {
    if s == [] then 0
    else (if Matches(s[0], typ, id) then 1 else 0) + CountMatches(s[1..], typ, id)
  }

  lemma {:induction false} CountMatchesSnoc(s: seq<Chunk>, c: Chunk, typ: int, id: int)
    ensures CountMatches(s + [c], typ, id) == CountMatches(s, typ, id) + (if Matches(c, typ, id) then 1 else 0)
  {
    if s != [] {
      assert (s + [c])[1..] == s[1..] + [c];
      CountMatchesSnoc(s[1..], c, typ, id);
    }
  }

  /** One more element of the prefix adds one exactly when it matches. */
  lemma {:induction false} CountMatchesPrefixStep(s: seq<Chunk>, i: nat, typ: int, id: int)
    requires i < |s|
    ensures CountMatches(s[..i + 1], typ, id) == CountMatches(s[..i], typ, id) + (if Matches(s[i], typ, id) then 1 else 0)
  {
    assert s[..i + 1] == s[..i] + [s[i]];
    CountMatchesSnoc(s[..i], s[i], typ, id);
  }

  function ShiftIndex(o: Option<nat>): Option<nat> {
    match o
    case None => None
    case Some(k) => Some(k + 1)
  }

  /** Position of the (n+1)-th chunk matching (typ, id), if there are that many. */
  function MatchIndex(s: seq<Chunk>, typ: int, id: int, n: nat): (r: Option<nat>)
    ensures r.Some? ==> r.value < |s| && Matches(s[r.value], typ, id)
    ensures r.Some? ==> CountMatches(s[..r.value], typ, id) == n
    ensures r.None? <==> CountMatches(s, typ, id) <= n
    decreases s
  {
    if s == [] then None
    else if Matches(s[0], typ, id) then
      if n == 0 then Some(0)
      else
        var r := ShiftIndex(MatchIndex(s[1..], typ, id, n - 1));
        assert r.Some? ==> s[..r.value][1..] == s[1..][..r.value - 1];
        r
    else
      var r := ShiftIndex(MatchIndex(s[1..], typ, id, n));
      assert r.Some? ==> s[..r.value][1..] == s[1..][..r.value - 1];
      r
  }

  /** A matching chunk with exactly n matches before it is the one `MatchIndex` selects. */
  lemma {:induction false} MatchIndexUnique(s: seq<Chunk>, typ: int, id: int, n: nat, k: nat)
    requires k < |s| && Matches(s[k], typ, id) && CountMatches(s[..k], typ, id) == n
    ensures MatchIndex(s, typ, id, n) == Some(k)
    decreases s
  {
    if k > 0 {
      assert s[..k][1..] == s[1..][..k - 1];
      if Matches(s[0], typ, id) {
        MatchIndexUnique(s[1..], typ, id, n - 1, k - 1);
      } else {
        MatchIndexUnique(s[1..], typ, id, n, k - 1);
      }
    }
  }

  /** `chunk_file.get_chunk_by_id(type, id, index)`. */
  function GetChunkById(cf: ChunkFile, typ: int, id: int, n: nat): (r: Option<Chunk>)
    ensures r.Some? ==> Matches(r.value, typ, id)
    ensures r.None? <==> CountMatches(cf.chunks, typ, id) <= n
  {
    match MatchIndex(cf.chunks, typ, id, n)
    case None => None
    case Some(k) => Some(cf.chunks[k])
  }

  /**
   * The chunk address's `replace` on the copied container: overwrite the
   * selected occurrence, or fail when there are not enough matches.
   */
  function ReplaceOccurrence(s: seq<Chunk>, typ: int, id: int, n: nat, v: Chunk): (r: Option<seq<Chunk>>)
    ensures r.None? <==> CountMatches(s, typ, id) <= n
    ensures r.Some? ==> |r.value| == |s|
    ensures r.Some? ==> exists k :: 0 <= k < |s| && MatchIndex(s, typ, id, n) == Some(k) && r.value == s[k := v]
  {
    match MatchIndex(s, typ, id, n)
    case None => None
    case Some(k) => Some(s[k := v])
  }

  /**
   * Writing a chunk with the same (type, id) into the selected slot keeps the
   * selection there: reading the occurrence back yields the written chunk.
   */
  lemma {:induction false} ReplaceThenGet(s: seq<Chunk>, typ: int, id: int, n: nat, v: Chunk)
    requires Matches(v, typ, id)
    requires CountMatches(s, typ, id) > n
    ensures GetChunkById(ChunkFile(ReplaceOccurrence(s, typ, id, n, v).value), typ, id, n) == Some(v)
  {
    var k := MatchIndex(s, typ, id, n).value;
    assert s[k := v][..k] == s[..k];
    MatchIndexUnique(s[k := v], typ, id, n, k);
  }

  /** The counting loop of the chunk address's `replace`, over the copied chunk list. */
  method ReplaceInCopy(chunks: seq<Chunk>, typ: int, id: int, n: nat, v: Chunk) returns (r: Option<seq<Chunk>>)
    ensures r == ReplaceOccurrence(chunks, typ, id, n, v)
  {
    var copy := chunks;
    var index := n;
    var i := 0;
    while i < |copy|
      invariant 0 <= i <= |copy| && copy == chunks
      invariant CountMatches(chunks[..i], typ, id) + index == n
    {
      var chunk := copy[i];
      CountMatchesPrefixStep(chunks, i, typ, id);
      if chunk.id == id && chunk.typ == typ {
        if index > 0 {
          index := index - 1;
        } else {
          MatchIndexUnique(chunks, typ, id, n, i);
          copy := copy[i := v];
          return Some(copy);
        }
      }
      i := i + 1;
    }
    assert chunks[..|chunks|] == chunks;
    return None;
  }
}
