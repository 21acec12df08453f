/**
 * Triangle-strip index generation for a mesh (`build_mesh_data`): each
 * buffer list is a strip of `numVertices` vertices starting at
 * `vertexStart`; vertex `i >= 2` closes a triangle unless its kick flag has
 * the top bit set. The index width is chosen from the total vertex count.
 */
module MeshRender {
  import opened Wrappers

  /** A strip; `kickFlags` is None when the list carries no flags. */
  datatype BufferList = BufferList(vertexStart: int, numVertices: int, kickFlags: Option<seq<bv8>>)

  datatype IndexWidth = UnsignedByte | UnsignedShort | UnsignedInt

  /** Vertex `i` does not close a triangle. A flag read past the end of the array is `undefined`, which never compares as >= 0x80. */
  predicate Kicked(flags: seq<bv8>, i: int) {
    0 <= i < |flags| && flags[i] >= 0x80
  }

  /** The triangle vertex `i` closes: odd `i` keeps strip order, even `i` swaps the first two. */
  function Triangle(start: int, i: int): (t: seq<int>)
    ensures |t| == 3 && t[2] == start + i
    ensures t[0] != t[1] && start + i - 2 <= t[0] <= start + i - 1 && start + i - 2 <= t[1] <= start + i - 1
  {
    if i % 2 == 1 then [start + i - 2, start + i - 1, start + i]
    else [start + i - 1, start + i - 2, start + i]
  }

  /** The indices one list emits for vertices 2 .. n-1. */
  function StripUpTo(l: BufferList, flags: seq<bv8>, n: int): seq<int>
    decreases n
  {
    if n <= 2 then []
    else StripUpTo(l, flags, n - 1) + (if Kicked(flags, n - 1) then [] else Triangle(l.vertexStart, n - 1))
  }

  /** The indices one list emits. */
  function Strip(l: BufferList): seq<int> {
    match l.kickFlags
    case None => []
    case Some(flags) => StripUpTo(l, flags, l.numVertices)
  }

  /** The index array for all lists, in order. */
  function AllIndices(lists: seq<BufferList>): seq<int>
    decreases |lists|
  {
    if lists == [] then [] else AllIndices(lists[..|lists| - 1]) + Strip(lists[|lists| - 1])
  }

  /** How many vertices of 2 .. n-1 close a triangle. */
  function Closing(flags: seq<bv8>, n: int): nat
    decreases n
  {
    if n <= 2 then 0 else Closing(flags, n - 1) + (if Kicked(flags, n - 1) then 0 else 1)
  }

  /** Each closing vertex contributes exactly three indices, kicked ones none. */
  lemma {:induction false} StripCount(l: BufferList, flags: seq<bv8>, n: int)
    ensures |StripUpTo(l, flags, n)| == 3 * Closing(flags, n)
    decreases n
  {
    if n > 2 {
      StripCount(l, flags, n - 1);
    }
  }

  /** Every index a strip emits lies inside that strip. */
  lemma {:induction false} StripBounds(l: BufferList, flags: seq<bv8>, n: int)
    requires n <= l.numVertices
    ensures forall k :: 0 <= k < |StripUpTo(l, flags, n)| ==>
              l.vertexStart <= StripUpTo(l, flags, n)[k] < l.vertexStart + l.numVertices
    decreases n
  {
    if n > 2 {
      StripBounds(l, flags, n - 1);
      var prev := StripUpTo(l, flags, n - 1);
      var last := if Kicked(flags, n - 1) then [] else Triangle(l.vertexStart, n - 1);
      assert StripUpTo(l, flags, n) == prev + last;
      forall k | 0 <= k < |prev + last|
        ensures l.vertexStart <= (prev + last)[k] < l.vertexStart + l.numVertices
      {
        if k >= |prev| {
          assert (prev + last)[k] == last[k - |prev|];
        }
      }
    }
  }

  function Edges(t: seq<int>): set<(int, int)>
    requires |t| == 3
  {
    {(t[0], t[1]), (t[1], t[2]), (t[2], t[0])}
  }

  /**
   * Consecutive strip triangles share the edge between vertices i-1 and i
   * and traverse it in opposite directions, so every triangle of a strip
   * faces the same way.
   */
  lemma ConsistentWinding(start: int, i: int)
    requires i >= 3
    ensures var (u, v) := (start + i - 2, start + i - 1);
            ((u, v) in Edges(Triangle(start, i - 1)) && (v, u) in Edges(Triangle(start, i))) ||
            ((v, u) in Edges(Triangle(start, i - 1)) && (u, v) in Edges(Triangle(start, i)))
  {
  }

  /** The index width for `total` vertices. */
  function WidthFor(total: int): IndexWidth {
    if total < 255 then UnsignedByte else if total < 65535 then UnsignedShort else UnsignedInt
  }

  function MaxIndex(w: IndexWidth): int {
    match w
    case UnsignedByte => 0xFF
    case UnsignedShort => 0xFFFF
    case UnsignedInt => 0xFFFF_FFFF
  }

  /**
   * Every vertex index below the total fits the chosen width and stays below
   * its largest value, for totals that fit 32 bits.
   */
  lemma WidthFits(total: int, index: int)
    requires 0 <= index < total <= 0xFFFF_FFFF
    ensures index < MaxIndex(WidthFor(total))
  {
  }

  /** What `build_mesh_data` computes about indices. */
  datatype MeshIndices = MeshIndices(indices: seq<int>, width: IndexWidth, count: nat)

  /** The inner loop over one strip's vertices. */
  method AppendStrip(indices: seq<int>, l: BufferList, flags: seq<bv8>) returns (r: seq<int>)
    ensures r == indices + StripUpTo(l, flags, l.numVertices)
  {
    r := indices;
    if l.numVertices <= 2 {
      return;
    }
    var i := 2;
    while i < l.numVertices
      invariant 2 <= i <= l.numVertices
      invariant r == indices + StripUpTo(l, flags, i)
    {
      StripStep(l, flags, i);
      if 0 <= i < |flags| && flags[i] >= 0x80 {
        i := i + 1;
        continue;
      }
      ghost var before := r;
      r := EmitTriangle(r, l.vertexStart, i);
      assert before + Triangle(l.vertexStart, i) == indices + (StripUpTo(l, flags, i) + Triangle(l.vertexStart, i));
      i := i + 1;
    }
  }

  /** The three pushes for the triangle vertex `i` closes. */
  method EmitTriangle(indices: seq<int>, start: int, i: int) returns (r: seq<int>)
    ensures r == indices + Triangle(start, i)
  {
    r := indices;
    if i % 2 == 1 {
      r := r + [start + i - 2];
      r := r + [start + i - 1];
    } else {
      r := r + [start + i - 1];
      r := r + [start + i - 2];
    }
    r := r + [start + i];
  }

  /** Vertex `i` adds its triangle to the strip, or nothing when it is kicked. */
  lemma StripStep(l: BufferList, flags: seq<bv8>, i: int)
    requires i >= 2
    ensures Kicked(flags, i) ==> StripUpTo(l, flags, i + 1) == StripUpTo(l, flags, i)
    ensures !Kicked(flags, i) ==> StripUpTo(l, flags, i + 1) == StripUpTo(l, flags, i) + Triangle(l.vertexStart, i)
  {
    assert StripUpTo(l, flags, i) + [] == StripUpTo(l, flags, i);
  }

  /** `build_mesh_data`, its index part: the strip loops, the width choice and the count. */
  method BuildMeshIndices(lists: seq<BufferList>, totalVerts: int) returns (m: MeshIndices)
    ensures m.indices == AllIndices(lists)
    ensures m.width == WidthFor(totalVerts) && m.count == |m.indices|
  {
    var indices: seq<int> := [];
    for k := 0 to |lists|
      invariant indices == AllIndices(lists[..k])
    {
      assert lists[..k + 1][..k] == lists[..k];
      var list := lists[k];
      if list.kickFlags.None? {
        continue;
      }
      indices := AppendStrip(indices, list, list.kickFlags.value);
    }
    assert lists[..|lists|] == lists;
    var width := UnsignedInt;
    if totalVerts < 255 {
      width := UnsignedByte;
    } else if totalVerts < 65535 {
      width := UnsignedShort;
    }
    return MeshIndices(indices, width, |indices|);
  }

  /** How many triangles all lists close together. */
  function AllClosing(lists: seq<BufferList>): nat
    decreases |lists|
  {
    if lists == [] then 0
    else
      var l := lists[|lists| - 1];
      AllClosing(lists[..|lists| - 1]) + (if l.kickFlags.Some? then Closing(l.kickFlags.value, l.numVertices) else 0)
  }

  /** Over all lists: three indices per closed triangle, hence a multiple of three. */
  lemma {:induction false} AllIndicesTriangles(lists: seq<BufferList>)
    ensures |AllIndices(lists)| == 3 * AllClosing(lists)
    ensures |AllIndices(lists)| % 3 == 0
    decreases |lists|
  {
    if lists != [] {
      var init, l := lists[..|lists| - 1], lists[|lists| - 1];
      AllIndicesTriangles(init);
      assert AllIndices(lists) == AllIndices(init) + Strip(l);
      if l.kickFlags.Some? {
        StripCount(l, l.kickFlags.value, l.numVertices);
        assert AllClosing(lists) == AllClosing(init) + Closing(l.kickFlags.value, l.numVertices);
      } else {
        assert AllClosing(lists) == AllClosing(init);
      }
    }
    TimesThree(AllClosing(lists));
  }

  lemma TimesThree(k: nat)
    ensures (3 * k) % 3 == 0
  {
  }
}
