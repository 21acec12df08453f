/**
 * Byte patch lists of the hex editor. A replacement writes one byte, one
 * nibble of a byte, or a run of bytes at an offset; `apply` splices an
 * ascending list of them into a blob. Values are kept as their low 8 bits,
 * which is all that reaches the output.
 */
module HexReplacement {
  import opened Wrappers
  import opened Archive

  /** "byte", "upper" (high nibble) or "lower" (low nibble). */
  datatype SingleKind = Whole | Upper | Lower

  datatype Replacement =
    | Single(kind: SingleKind, offset: int, value: bv8)
    | Range(offset: int, bytes: seq<bv8>)

  /** First offset after the bytes a replacement covers. */
  function End(r: Replacement): int {
    r.offset + if r.Range? then |r.bytes| else 1
  }

  /** The editor only makes nibble edits whose value is one hex digit. */
  predicate NibbleFits(r: Replacement) {
    r.Single? && r.kind != Whole ==> r.value < 16
  }

  /** The byte a single replacement writes over `base`. */
  function NewByte(base: bv8, r: Replacement): (b: bv8)
    requires r.Single?
    ensures r.kind == Whole ==> b == r.value
    ensures r.kind == Upper ==> (b & 0x0F) == (base & 0x0F) && (b >> 4) == (r.value & 0x0F)
    ensures r.kind == Lower ==> (b & 0xF0) == ((base & 0xF0) | (r.value & 0xF0)) && (b & 0x0F) == (r.value & 0x0F)
  {
    match r.kind
    case Whole => r.value
    case Lower => (base & 0xF0) | r.value
    case Upper => (base & 0x0F) | (r.value << 4)
  }

  /** What `apply` emits for one replacement; a nibble past the end of the blob combines with 0. */
  function Written(blob: seq<bv8>, r: Replacement): (w: seq<bv8>)
    ensures |w| == End(r) - r.offset
  {
    if r.Range? then r.bytes
    else [NewByte(if 0 <= r.offset < |blob| then blob[r.offset] else 0, r)]
  }

  function Prepend(prefix: seq<bv8>, r: Result<seq<bv8>>): Result<seq<bv8>> {
    match r
    case Ok(rest) => Ok(prefix + rest)
    case Err(e) => Err(e)
  }

  lemma PrependNothing(r: Result<seq<bv8>>)
    ensures Prepend([], r) == r
  {
    if r.Ok? {
      assert [] + r.value == r.value;
    }
  }

  lemma PrependTwice(p1: seq<bv8>, p2: seq<bv8>, r: Result<seq<bv8>>)
    ensures Prepend(p1, Prepend(p2, r)) == Prepend(p1 + p2, r)
  {
    if r.Ok? {
      assert p1 + (p2 + r.value) == (p1 + p2) + r.value;
    }
  }

  /** `apply_replacements_to_blob` from position `ptr` on, for the remaining replacements. */
  function ApplyFrom(blob: seq<bv8>, reps: seq<Replacement>, ptr: int): Result<seq<bv8>>
    decreases |reps|
  {
    if reps == [] then Ok(SliceBytes(blob, ptr, |blob|))
    else if reps[0].offset < ptr then Err(OutOfOrder)
    else Prepend(SliceBytes(blob, ptr, reps[0].offset) + Written(blob, reps[0]),
                 ApplyFrom(blob, reps[1..], End(reps[0])))
  }

  /** `apply_replacements_to_blob`: the loop that advances `ptr` and collects the parts. */
  method Apply(blob: seq<bv8>, reps: seq<Replacement>) returns (r: Result<seq<bv8>>)
    ensures r == ApplyFrom(blob, reps, 0)
  {
    var ptr := 0;
    var parts: seq<bv8> := [];
    var i := 0;
    assert reps[0..] == reps;
    PrependNothing(ApplyFrom(blob, reps, 0));
    while i < |reps|
      invariant 0 <= i <= |reps| && 0 <= ptr
      invariant ApplyFrom(blob, reps, 0) == Prepend(parts, ApplyFrom(blob, reps[i..], ptr))
    {
      var rep := reps[i];
      if rep.offset < ptr {
        ApplyStops(blob, reps, i, ptr, parts);
        return Err(OutOfOrder);
      }
      ghost var before := ptr;
      var piece;
      piece, ptr := ApplyOne(blob, rep, ptr);
      ApplyUnfold(blob, reps, i, before);
      PrependTwice(parts, piece, ApplyFrom(blob, reps[i + 1..], ptr));
      parts := parts + piece;
      i := i + 1;
    }
    var tail: seq<bv8> := [];
    if |blob| > ptr {
      tail := blob[ptr..];
    }
    ApplyEnd(blob, reps, ptr, parts, tail);
    return Ok(parts + tail);
  }

  /** Past the last entry, `apply` appends the rest of the blob from `ptr`. */
  lemma ApplyEnd(blob: seq<bv8>, reps: seq<Replacement>, ptr: int, parts: seq<bv8>, tail: seq<bv8>)
    requires 0 <= ptr && tail == (if |blob| > ptr then blob[ptr..] else [])
    ensures Prepend(parts, ApplyFrom(blob, reps[|reps|..], ptr)) == Ok(parts + tail)
  {
    assert reps[|reps|..] == [];
    if |blob| > ptr {
      assert blob[ptr..] == blob[ptr..|blob|];
    }
    assert tail == SliceBytes(blob, ptr, |blob|);
  }

  /** The parts `apply` pushes for one in-order entry: the untouched gap, then its bytes; and the new `ptr`. */
  method ApplyOne(blob: seq<bv8>, rep: Replacement, ptr: int) returns (piece: seq<bv8>, next: int)
    requires 0 <= ptr <= rep.offset
    ensures piece == SliceBytes(blob, ptr, rep.offset) + Written(blob, rep) && next == End(rep) && 0 <= next
  {
    var gap: seq<bv8> := [];
    if rep.offset > ptr {
      gap := SliceBytes(blob, ptr, rep.offset);
    }
    next := rep.offset;
    var out := Emitted(blob, rep, next);
    if rep.Range? {
      next := next + |rep.bytes|;
    } else {
      next := next + 1;
    }
    piece := gap + out;
  }

  /** One step of `apply` from entry `i`: the gap, the entry's bytes, then the rest from its end. */
  lemma ApplyUnfold(blob: seq<bv8>, reps: seq<Replacement>, i: nat, ptr: int)
    requires i < |reps| && ptr <= reps[i].offset
    ensures ApplyFrom(blob, reps[i..], ptr) ==
            Prepend(SliceBytes(blob, ptr, reps[i].offset) + Written(blob, reps[i]), ApplyFrom(blob, reps[i + 1..], End(reps[i])))
  {
    assert reps[i..][0] == reps[i] && reps[i..][1..] == reps[i + 1..];
  }

  /** An entry starting before `ptr` makes the whole application fail, whatever came before. */
  lemma ApplyStops(blob: seq<bv8>, reps: seq<Replacement>, i: nat, ptr: int, parts: seq<bv8>)
    requires i < |reps| && reps[i].offset < ptr
    ensures Prepend(parts, ApplyFrom(blob, reps[i..], ptr)) == Err(OutOfOrder)
  {
    assert reps[i..][0] == reps[i];
  }

  /** The bytes the loop of `apply` emits for `rep`, with `ptr` at its offset. */
  method Emitted(blob: seq<bv8>, rep: Replacement, ptr: int) returns (out: seq<bv8>)
    requires ptr == rep.offset && 0 <= ptr
    ensures out == Written(blob, rep)
  {
    if rep.Range? {
      out := rep.bytes;
    } else {
      var b := rep.value;
      if rep.kind != Whole {
        var base: bv8 := if ptr < |blob| then blob[ptr] else 0;
        if rep.kind == Lower {
          b := (base & 0xF0) | b;
        } else {
          b := (base & 0x0F) | (b << 4);
        }
      }
      out := [b];
    }
  }

  // ---------------------------------------------------------------------
  // Ordering

  /** Each replacement starts at or after the end of the one before (and at or after `ptr`). */
  predicate OrderedFrom(reps: seq<Replacement>, ptr: int)
    decreases |reps|
  {
    reps == [] || (reps[0].offset >= ptr && OrderedFrom(reps[1..], End(reps[0])))
  }

  /** `apply` throws exactly when the list is out of order. */
  lemma {:induction false} ApplyFailsIffUnordered(blob: seq<bv8>, reps: seq<Replacement>, ptr: int)
    ensures ApplyFrom(blob, reps, ptr).Err? <==> !OrderedFrom(reps, ptr)
    ensures ApplyFrom(blob, reps, ptr).Err? ==> ApplyFrom(blob, reps, ptr).error == OutOfOrder
    decreases |reps|
  {
    if reps != [] && reps[0].offset >= ptr {
      ApplyFailsIffUnordered(blob, reps[1..], End(reps[0]));
    }
  }

  // ---------------------------------------------------------------------
  // Reference meaning: overwrite the blob in place, one replacement after another

  predicate InBounds(r: Replacement, size: nat) {
    0 <= r.offset && End(r) <= size
  }

  predicate AllInBounds(reps: seq<Replacement>, size: nat) {
    forall i :: 0 <= i < |reps| ==> InBounds(reps[i], size)
  }

  /** One replacement written over the blob; one that does not fit leaves it as it is. */
  function Patch(b: seq<bv8>, r: Replacement): (p: seq<bv8>)
    ensures |p| == |b|
    ensures InBounds(r, |b|) ==> p[r.offset..End(r)] == Written(b, r)
  {
    if !InBounds(r, |b|) then b
    else if r.Range? then b[..r.offset] + r.bytes + b[End(r)..]
    else b[r.offset := NewByte(b[r.offset], r)]
  }

  /** All replacements written over the blob, in list order. */
  function PatchAll(b: seq<bv8>, reps: seq<Replacement>): (p: seq<bv8>)
    ensures |p| == |b|
    decreases |reps|
  {
    if reps == [] then b else PatchAll(Patch(b, reps[0]), reps[1..])
  }

  /** Bytes outside every replacement span are kept. */
  lemma {:induction false} PatchAllOutside(b: seq<bv8>, reps: seq<Replacement>, i: int)
    requires AllInBounds(reps, |b|) && 0 <= i < |b|
    requires forall j :: 0 <= j < |reps| ==> !(reps[j].offset <= i < End(reps[j]))
    ensures PatchAll(b, reps)[i] == b[i]
    decreases |reps|
  {
    if reps != [] {
      PatchAllOutside(Patch(b, reps[0]), reps[1..], i);
    }
  }

  /** Replacements that all start at or after `e` leave the bytes before `e` alone. */
  lemma {:induction false} PatchAllKeepsBelow(b: seq<bv8>, reps: seq<Replacement>, e: int)
    requires AllInBounds(reps, |b|) && OrderedFrom(reps, e) && 0 <= e <= |b|
    ensures PatchAll(b, reps)[..e] == b[..e]
    decreases |reps|
  {
    if reps != [] {
      var p := Patch(b, reps[0]);
      assert p[..e] == b[..e];
      PatchAllKeepsBelow(p, reps[1..], End(reps[0]));
      assert PatchAll(p, reps[1..])[..e] == PatchAll(p, reps[1..])[..End(reps[0])][..e];
      assert p[..e] == p[..End(reps[0])][..e];
    }
  }

  /** `apply` looks at the blob only from `ptr` on. */
  lemma {:induction false} ApplyReadsFrom(b1: seq<bv8>, b2: seq<bv8>, reps: seq<Replacement>, ptr: int)
    requires |b1| == |b2| && 0 <= ptr
    requires forall i :: ptr <= i < |b1| ==> b1[i] == b2[i]
    ensures ApplyFrom(b1, reps, ptr) == ApplyFrom(b2, reps, ptr)
    decreases |reps|
  {
    if reps == [] {
      assert SliceBytes(b1, ptr, |b1|) == SliceBytes(b2, ptr, |b2|);
    } else if reps[0].offset >= ptr {
      assert SliceBytes(b1, ptr, reps[0].offset) == SliceBytes(b2, ptr, reps[0].offset);
      assert Written(b1, reps[0]) == Written(b2, reps[0]);
      ApplyReadsFrom(b1, b2, reps[1..], End(reps[0]));
    }
  }

  /**
   * For an ascending list that stays inside the blob, `apply` produces the
   * blob with every replacement written over it, from `ptr` on.
   */
  lemma {:induction false} ApplyIsPatchAllFrom(b: seq<bv8>, reps: seq<Replacement>, ptr: int)
    requires AllInBounds(reps, |b|) && OrderedFrom(reps, ptr) && 0 <= ptr <= |b|
    ensures ApplyFrom(b, reps, ptr) == Ok(PatchAll(b, reps)[ptr..])
    decreases |reps|
  {
    if reps == [] {
      assert SliceBytes(b, ptr, |b|) == b[ptr..];
    } else {
      var r, rest := reps[0], reps[1..];
      assert InBounds(r, |b|);
      var p := Patch(b, r);
      var e := End(r);
      assert AllInBounds(rest, |p|) && OrderedFrom(rest, e);
      ApplyIsPatchAllFrom(p, rest, e);
      ApplyReadsFrom(b, p, rest, e);
      PatchAllKeepsBelow(p, rest, e);
      var all := PatchAll(p, rest);
      assert all == PatchAll(b, reps);
      var pre := SliceBytes(b, ptr, r.offset) + Written(b, r);
      assert ApplyFrom(b, reps, ptr) == Prepend(pre, Ok(all[e..]));
      PatchPrefix(b, r, ptr);
      SplitAt(all, p, ptr, e, pre);
    }
  }

  /** The part of a patched blob from `ptr` to the end of the replacement is gap then written bytes. */
  lemma PatchPrefix(b: seq<bv8>, r: Replacement, ptr: int)
    requires InBounds(r, |b|) && 0 <= ptr <= r.offset
    ensures Patch(b, r)[ptr..End(r)] == SliceBytes(b, ptr, r.offset) + Written(b, r)
  {
    var p := Patch(b, r);
    assert p[ptr..r.offset] == b[ptr..r.offset];
    assert p[ptr..End(r)] == p[ptr..r.offset] + p[r.offset..End(r)];
  }

  lemma SplitAt(all: seq<bv8>, p: seq<bv8>, ptr: int, e: int, pre: seq<bv8>)
    requires 0 <= ptr <= e <= |all| == |p|
    requires all[..e] == p[..e] && p[ptr..e] == pre
    ensures all[ptr..] == pre + all[e..]
  {
    assert all[ptr..e] == all[..e][ptr..];
    assert p[ptr..e] == p[..e][ptr..];
    assert all[ptr..] == all[ptr..e] + all[e..];
  }

  /** The whole blob: `apply` writes every replacement and keeps the length. */
  lemma {:induction false} ApplyIsPatchAll(b: seq<bv8>, reps: seq<Replacement>)
    requires AllInBounds(reps, |b|) && OrderedFrom(reps, 0)
    ensures ApplyFrom(b, reps, 0) == Ok(PatchAll(b, reps))
    ensures |PatchAll(b, reps)| == |b|
  {
    ApplyIsPatchAllFrom(b, reps, 0);
    assert PatchAll(b, reps)[0..] == PatchAll(b, reps);
  }

  // ---------------------------------------------------------------------
  // Merging one edit into a list: `add_replacement`

  /** The search loop: the first entry that ends after `offset`. */
  function Located(reps: seq<Replacement>, offset: int): (r: Option<nat>)
    ensures r.Some? ==> r.value < |reps| && offset < End(reps[r.value])
    ensures r.Some? ==> forall j :: 0 <= j < r.value ==> End(reps[j]) <= offset
    ensures r.None? ==> forall j :: 0 <= j < |reps| ==> End(reps[j]) <= offset
  {
    if reps == [] then None
    else if offset < End(reps[0]) then Some(0)
    else match Located(reps[1..], offset)
      case None => None
      case Some(k) => Some(k + 1)
  }

  /**
   * Two single edits at one offset, the earlier `after` and then `a`, of
   * different kinds with `a` a nibble: the byte they amount to together.
   */
  function Combined(after: Replacement, a: Replacement): (v: bv8)
    requires after.Single? && a.Single? && a.kind != Whole && a.kind != after.kind
  {
    NibbleMerge(after.value, after.kind == Upper, a.value, a.kind == Upper)
  }

  /**
   * The byte arithmetic of the merge: the earlier value `x` (shifted up when
   * it was an "upper" edit) keeps the half that the nibble `y` does not set.
   */
  function NibbleMerge(x: bv8, xUpper: bool, y: bv8, yUpper: bool): bv8 {
    var value := if xUpper then x << 4 else x;
    if yUpper then (value & 0x0F) | (y << 4) else (value & 0xF0) | y
  }

  /** Whatever the byte was, the two nibble edits one after the other leave the combined byte. */
  lemma CombinedMeansBoth(after: Replacement, a: Replacement, x: bv8)
    requires after.Single? && a.Single? && a.kind != Whole && a.kind != after.kind
    ensures NewByte(NewByte(x, after), a) == Combined(after, a)
  {
  }

  /** The entry that replaces `after` when `a` lands on the same offset. */
  function MergedSingle(after: Replacement, a: Replacement): (m: Replacement)
    requires after.Single? && a.Single? && after.offset == a.offset
    ensures m.Single? && m.offset == a.offset
    ensures a.kind == Whole || a.kind == after.kind ==> m == a
  {
    if a.kind == after.kind || a.kind == Whole then a
    else Single(Whole, a.offset, Combined(after, a))
  }

  /** A byte or range seen as a run of bytes (what the coalescing step turns a "byte" into). */
  function Run(r: Replacement): Option<Replacement> {
    if r.Range? then Some(r)
    else if r.kind == Whole then Some(Range(r.offset, [r.value]))
    else None
  }

  /** The preceding entry, as a run, when `a` continues it. */
  function JoinsPrev(s: seq<Replacement>, a: Replacement, loc: nat): (r: Option<Replacement>)
    ensures r.Some? ==> loc >= 1 && loc - 1 < |s| && r.value.Range? && r.value.offset == s[loc - 1].offset
    ensures r.Some? ==> End(r.value) == End(s[loc - 1]) == a.offset
  {
    if 1 <= loc <= |s| && Run(s[loc - 1]).Some? && a.offset == End(Run(s[loc - 1]).value)
    then Run(s[loc - 1]) else None
  }

  /** The following entry, as a run, when it continues `a`. */
  function JoinsNext(s: seq<Replacement>, a: Replacement, loc: nat): (r: Option<Replacement>)
    ensures r.Some? ==> loc + 1 < |s| && r.value.Range? && r.value.offset == s[loc + 1].offset == a.offset + 1
    ensures r.Some? ==> End(r.value) == End(s[loc + 1])
  {
    if loc + 1 < |s| && Run(s[loc + 1]).Some? && Run(s[loc + 1]).value.offset == a.offset + 1
    then Run(s[loc + 1]) else None
  }

  /**
   * The coalescing step after `a` sits at `loc`: a nibble returns at once; a
   * byte joins the run before it (and the run after it when that touches
   * too), or else the run after it. `keepOffset` chooses where a run that
   * absorbs a byte in front of it starts: at the run's own offset (as the
   * code does) or at the byte's.
   */
  function Coalesce(s: seq<Replacement>, a: Replacement, loc: nat, keepOffset: bool): (r: seq<Replacement>)
    requires a.Single? && loc < |s|
    ensures a.kind != Whole ==> r == s
  {
    if a.kind != Whole then s
    else
      var prev, next := JoinsPrev(s, a, loc), JoinsNext(s, a, loc);
      if prev.Some? then
        var tail := if next.Some? then next.value.bytes else [];
        var count := if next.Some? then 3 else 2;
        s[..loc - 1] + [Range(prev.value.offset, prev.value.bytes + [a.value] + tail)] + s[loc - 1 + count..]
      else if next.Some? then
        var start := if keepOffset then next.value.offset else a.offset;
        s[..loc] + [Range(start, [a.value] + next.value.bytes)] + s[loc + 2..]
      else s
  }

  /** Put a single edit at `loc`: onto a single entry at the same offset, or in front of entry `loc`. */
  function Settle(reps: seq<Replacement>, a: Replacement, loc: nat, keepOffset: bool): (r: Result<seq<Replacement>>)
    requires loc < |reps|
    ensures r.Err? <==> a.Range?
  {
    var after := reps[loc];
    if a.Single? && after.Single? && after.offset == a.offset then
      var m := MergedSingle(after, a);
      Ok(Coalesce(reps[loc := m], m, loc, keepOffset))
    else if a.Single? then
      Ok(Coalesce(reps[..loc] + [a] + reps[loc..], a, loc, keepOffset))
    else Err(Unsupported)
  }

  /** `add_replacement` as the code has it. */
  function Added(reps: seq<Replacement>, a: Replacement): Result<seq<Replacement>> {
    if |reps| == 0 then Ok([a])
    else if a.Range? && |a.bytes| == 0 then Ok(reps)
    else
      var loc := match Located(reps, a.offset) case Some(i) => i case None => |reps| - 1;
      Settle(reps, a, loc, true)
  }

  /** `add_replacement`: search loop, then the splices on the copied list and on the run's bytes. */
  method AddReplacement(replacements: seq<Replacement>, addition: Replacement) returns (r: Result<seq<Replacement>>)
    ensures r == Added(replacements, addition)
  {
    if |replacements| == 0 {
      return Ok([addition]);
    }
    if addition.Range? && |addition.bytes| == 0 {
      return Ok(replacements);
    }
    var insert := |replacements| - 1;
    var reps := replacements;
    var i := 0;
    while i < |reps|
      invariant 0 <= i <= |reps| && reps == replacements
      invariant forall j :: 0 <= j < i ==> End(reps[j]) <= addition.offset
    {
      var rep := reps[i];
      if addition.offset < rep.offset + (if rep.Range? then |rep.bytes| else 1) {
        insert := i;
        break;
      }
      i := i + 1;
    }
    assert insert == match Located(reps, addition.offset) case Some(k) => k case None => |reps| - 1;
    r := SettleInCopy(reps, addition, insert);
  }

  /** The merge-or-splice of `add_replacement` once the insert location is known. */
  method SettleInCopy(replacements: seq<Replacement>, addition: Replacement, insert: nat)
    returns (r: Result<seq<Replacement>>)
    requires insert < |replacements|
    ensures r == Settle(replacements, addition, insert, true)
  {
    var reps := replacements;
    var after := reps[insert];
    var add := addition;
    if add.Single? && after.Single? && after.offset == add.offset {
      add := MergeInPlace(after, add);
      reps := reps[insert := add];
    } else if add.Single? {
      reps := reps[..insert] + [add] + reps[insert..];
    }
    if add.Single? {
      if add.kind != Whole {
        return Ok(reps);
      }
      var s := CoalesceInCopy(reps, add, insert);
      return Ok(s);
    }
    return Err(Unsupported);
  }

  /** The nibble merge of `add_replacement`: a half byte onto the other half at the same offset. */
  method MergeInPlace(after: Replacement, addition: Replacement) returns (add: Replacement)
    requires after.Single? && addition.Single? && after.offset == addition.offset
    ensures add == MergedSingle(after, addition)
  {
    add := addition;
    if !(add.kind == after.kind || add.kind == Whole) {
      var value := MergeValues(after.value, after.kind == Upper, add.value, add.kind == Upper);
      add := Single(Whole, add.offset, value);
    }
  }

  /** The in-place byte updates of the merge. */
  method MergeValues(x: bv8, xUpper: bool, y: bv8, yUpper: bool) returns (value: bv8)
    ensures value == NibbleMerge(x, xUpper, y, yUpper)
  {
    value := x;
    if xUpper {
      value := value << 4;
    }
    if yUpper {
      value := (value & 0x0F) | (y << 4);
    } else {
      value := (value & 0xF0) | y;
    }
  }

  /** The coalescing tail of `add_replacement` for a "byte" addition sitting at `insert`. */
  method CoalesceInCopy(replacements: seq<Replacement>, add: Replacement, insert: nat)
    returns (reps: seq<Replacement>)
    requires add.Single? && add.kind == Whole && insert < |replacements|
    ensures reps == Coalesce(replacements, add, insert, true)
  {
    reps := replacements;
    var next: Option<Replacement> := if insert + 1 < |reps| then Some(reps[insert + 1]) else None;
    var prev: Option<Replacement> := if insert >= 1 then Some(reps[insert - 1]) else None;
    if prev.Some? && prev.value.Single? && prev.value.kind == Whole && add.offset == prev.value.offset + 1 {
      prev := Some(Range(prev.value.offset, [prev.value.value]));
    }
    if next.Some? && next.value.Single? && next.value.kind == Whole && next.value.offset == add.offset + 1 {
      next := Some(Range(next.value.offset, [next.value.value]));
    }
    var prevJoins := prev.Some? && prev.value.Range? && add.offset == prev.value.offset + |prev.value.bytes|;
    var nextJoins := next.Some? && next.value.Range? && next.value.offset == add.offset + 1;
    assert prevJoins <==> JoinsPrev(reps, add, insert).Some?;
    assert prevJoins ==> prev == JoinsPrev(reps, add, insert);
    assert nextJoins <==> JoinsNext(reps, add, insert).Some?;
    assert nextJoins ==> next == JoinsNext(reps, add, insert);
    if prevJoins {
      var combined := prev.value.bytes;
      var count := 2;
      combined := combined + [add.value];
      if nextJoins {
        count := 3;
        combined := combined + next.value.bytes;
      }
      assert combined == prev.value.bytes + [add.value] + (if nextJoins then next.value.bytes else []);
      reps := reps[..insert - 1] + [Range(prev.value.offset, combined)] + reps[insert - 1 + count..];
    } else if nextJoins {
      var combined := next.value.bytes;
      combined := [add.value] + combined;
      reps := reps[..insert] + [Range(next.value.offset, combined)] + reps[insert + 2..];
    }
  }

  // ---------------------------------------------------------------------
  // What `add_replacement` promises, as the code has it

  /** An empty list becomes the addition alone; an empty range changes nothing; a range into a non-empty list is refused. */
  lemma AddedEdgeCases(reps: seq<Replacement>, a: Replacement)
    ensures reps == [] ==> Added(reps, a) == Ok([a])
    ensures reps != [] && a.Range? && a.bytes == [] ==> Added(reps, a) == Ok(reps)
    ensures reps != [] && a.Range? && a.bytes != [] ==> Added(reps, a) == Err(Unsupported)
    ensures reps != [] && a.Single? ==> Added(reps, a).Ok?
  {
  }

  /**
   * Two single edits on one byte merge into one entry that writes what the
   * two write one after the other: the addition overwrites when it is a
   * "byte" or of the same kind, and otherwise the high nibble comes from the
   * "upper" edit and the low nibble from the "lower" one.
   */
  lemma MergedSingleMeansBoth(after: Replacement, a: Replacement, x: bv8)
    requires after.Single? && a.Single? && after.offset == a.offset && NibbleFits(after)
    ensures NewByte(x, MergedSingle(after, a)) == NewByte(NewByte(x, after), a)
    ensures var m := MergedSingle(after, a);
            (m.kind == Whole || m.kind == a.kind) && (m.kind == Whole <==> a.kind == Whole || a.kind != after.kind)
  {
    if a.kind != Whole && a.kind != after.kind {
      CombinedMeansBoth(after, a, x);
    }
  }

  /** The same-offset case of `add_replacement`: the entry is replaced in place, by the merged edit. */
  lemma {:induction false} AddedSameOffset(reps: seq<Replacement>, a: Replacement, loc: nat)
    requires a.Single? && Located(reps, a.offset) == Some(loc)
    requires reps[loc].Single? && reps[loc].offset == a.offset
    ensures var m := MergedSingle(reps[loc], a);
            Added(reps, a) == Ok(Coalesce(reps[loc := m], m, loc, true))
    ensures a.kind != Whole && a.kind == reps[loc].kind ==> Added(reps, a) == Ok(reps[loc := a])
  {
    assert Added(reps, a) == Settle(reps, a, loc, true);
  }

  /** A nibble addition that lands on no single entry is spliced in as it is, and nothing is coalesced. */
  lemma {:induction false} AddedNibble(reps: seq<Replacement>, a: Replacement)
    requires reps != [] && a.Single? && a.kind != Whole
    ensures var loc := match Located(reps, a.offset) case Some(i) => i case None => |reps| - 1;
            !(reps[loc].Single? && reps[loc].offset == a.offset) ==>
              Added(reps, a) == Ok(reps[..loc] + [a] + reps[loc..])
  {
    var loc := match Located(reps, a.offset) case Some(i) => i case None => |reps| - 1;
    assert Added(reps, a) == Settle(reps, a, loc, true);
  }

  /** A byte between two touching bytes turns the three into one range. */
  lemma AddedJoinsBothNeighbours(x: bv8, y: bv8, z: bv8, o: nat)
    ensures Added([Single(Whole, o, x), Single(Whole, o + 2, z)], Single(Whole, o + 1, y))
         == Ok([Range(o, [x, y, z])])
  {
    var reps := [Single(Whole, o, x), Single(Whole, o + 2, z)];
    var a := Single(Whole, o + 1, y);
    assert Located(reps, a.offset) == Some(1) by {
      assert End(reps[0]) <= a.offset < End(reps[1]);
    }
    var s := reps[..1] + [a] + reps[1..];
    assert s == [reps[0], a, reps[1]];
    assert Added(reps, a) == Ok(Coalesce(s, a, 1, true));
    assert JoinsPrev(s, a, 1) == Some(Range(o, [x]));
    assert JoinsNext(s, a, 1) == Some(Range(o + 2, [z]));
    assert [x] + [y] + [z] == [x, y, z];
    assert s[..0] == [] && s[3..] == [];
    assert Coalesce(s, a, 1, true) == s[..0] + [Range(o, [x] + [y] + [z])] + s[3..];
    assert Coalesce(s, a, 1, true) == [Range(o, [x, y, z])];
    assert Added(reps, a) == Ok([Range(o, [x, y, z])]);
  }

  /** A byte right after a range, with a later entry further on, is appended to the range. */
  lemma AddedAppendsToRange(bytes: seq<bv8>, y: bv8, z: bv8, o: nat)
    ensures Added([Range(o, bytes), Single(Whole, o + |bytes| + 5, z)], Single(Whole, o + |bytes|, y))
         == Ok([Range(o, bytes + [y]), Single(Whole, o + |bytes| + 5, z)])
  {
    var reps := [Range(o, bytes), Single(Whole, o + |bytes| + 5, z)];
    var a := Single(Whole, o + |bytes|, y);
    assert Located(reps, a.offset) == Some(1) by {
      assert End(reps[0]) <= a.offset < End(reps[1]);
    }
    var s := reps[..1] + [a] + reps[1..];
    assert s == [reps[0], a, reps[1]];
    assert Added(reps, a) == Ok(Coalesce(s, a, 1, true));
    assert JoinsPrev(s, a, 1) == Some(Range(o, bytes));
    assert JoinsNext(s, a, 1) == None;
    assert s[..0] == [] && s[2..] == [reps[1]];
    assert Coalesce(s, a, 1, true) == s[..0] + [Range(o, bytes + [y] + [])] + s[2..];
    assert bytes + [y] + [] == bytes + [y];
    assert Coalesce(s, a, 1, true) == [Range(o, bytes + [y]), reps[1]];
    assert Added(reps, a) == Ok([Range(o, bytes + [y]), reps[1]]);
  }

  // ---------------------------------------------------------------------
  // Two defects of `add_replacement`, and the merge as evidently intended

  /**
   * A byte typed just past the only entry is spliced in front of it (the
   * insert location defaults to the last index), and `apply` then refuses
   * the list.
   */
  lemma {:induction false} AddPastLastIsOutOfOrder(x: bv8, y: bv8, blob: seq<bv8>)
    ensures Added([Single(Whole, 0, x)], Single(Whole, 1, y)) == Ok([Single(Whole, 1, y), Single(Whole, 0, x)])
    ensures ApplyFrom(blob, [Single(Whole, 1, y), Single(Whole, 0, x)], 0) == Err(OutOfOrder)
  {
    var reps := [Single(Whole, 0, x)];
    var a := Single(Whole, 1, y);
    assert Located(reps, 1) == None;
    var s := reps[..0] + [a] + reps[0..];
    assert s == [a, reps[0]];
    assert JoinsPrev(s, a, 0) == None && JoinsNext(s, a, 0) == None;
    assert Coalesce(s, a, 0, true) == s;
    assert [Single(Whole, 1, y), Single(Whole, 0, x)][1..] == [Single(Whole, 0, x)];
  }

  /**
   * A byte typed just before a byte entry joins it into a run that keeps the
   * later offset: the new byte is written where the old one was and the old
   * one a place further on, instead of each at its own offset.
   */
  lemma AddBeforeKeepsLaterOffset()
    ensures Added([Single(Whole, 5, 0xAA)], Single(Whole, 4, 0xBB)) == Ok([Range(5, [0xBB, 0xAA])])
    ensures ApplyFrom([0, 0, 0, 0, 0, 0, 0], [Range(5, [0xBB, 0xAA])], 0) == Ok([0, 0, 0, 0, 0, 0xBB, 0xAA])
    ensures Patch(Patch([0, 0, 0, 0, 0, 0, 0], Single(Whole, 5, 0xAA)), Single(Whole, 4, 0xBB))
         == [0, 0, 0, 0, 0xBB, 0xAA, 0]
  {
    var reps := [Single(Whole, 5, 0xAA)];
    var a := Single(Whole, 4, 0xBB);
    assert Located(reps, 4) == Some(0);
    assert Added(reps, a) == Settle(reps, a, 0, true);
    var s := reps[..0] + [a] + reps[0..];
    assert s == [a, reps[0]];
    assert Settle(reps, a, 0, true) == Ok(Coalesce(s, a, 0, true));
    assert JoinsPrev(s, a, 0) == None;
    assert JoinsNext(s, a, 0) == Some(Range(5, [0xAA]));
    assert s[..0] == [] && s[2..] == [];
    assert Coalesce(s, a, 0, true) == [Range(5, [0xBB] + [0xAA])];
    assert [0xBB as bv8] + [0xAA] == [0xBB, 0xAA];
    var blob: seq<bv8> := [0, 0, 0, 0, 0, 0, 0];
    var r := Range(5, [0xBB, 0xAA]);
    assert SliceBytes(blob, 0, 5) == [0, 0, 0, 0, 0];
    assert SliceBytes(blob, 7, 7) == [];
    assert [r][1..] == [] && End(r) == 7;
    assert ApplyFrom(blob, [], 7) == Ok([]);
    assert ApplyFrom(blob, [r], 0) == Prepend(SliceBytes(blob, 0, 5) + Written(blob, r), ApplyFrom(blob, [], 7));
    var expected: seq<bv8> := [0, 0, 0, 0, 0, 0xBB, 0xAA];
    assert SliceBytes(blob, 0, 5) + Written(blob, r) + [] == expected;
  }

  /**
   * `add_replacement` with both defects mended: an addition past every entry
   * is appended, and a byte that joins the run after it starts that run.
   */
  function AddedFixed(reps: seq<Replacement>, a: Replacement): (r: Result<seq<Replacement>>)
    ensures r.Err? <==> reps != [] && a.Range? && a.bytes != []
    ensures r.Err? ==> r.error == Unsupported
  {
    if |reps| == 0 then Ok([a])
    else if a.Range? && |a.bytes| == 0 then Ok(reps)
    else if a.Range? then Err(Unsupported)
    else match Located(reps, a.offset)
      case Some(loc) => Settle(reps, a, loc, false)
      case None => Ok(Coalesce(reps + [a], a, |reps|, false))
  }

  /** Entries that do not overlap and ascend, from offset 0 on. */
  predicate Chained(s: seq<Replacement>) {
    forall i :: 0 <= i < |s| - 1 ==> End(s[i]) <= s[i + 1].offset
  }

  predicate Sorted(s: seq<Replacement>) {
    (|s| > 0 ==> s[0].offset >= 0) && Chained(s)
  }

  predicate AllFit(s: seq<Replacement>) {
    forall i :: 0 <= i < |s| ==> NibbleFits(s[i])
  }

  /** No range entry covers `o`. */
  predicate OutsideRanges(s: seq<Replacement>, o: int) {
    forall i :: 0 <= i < |s| && s[i].Range? ==> !(s[i].offset <= o < End(s[i]))
  }

  /** The list order `apply` accepts is exactly `Sorted`. */
  lemma {:induction false} OrderedFromIff(s: seq<Replacement>, p: int)
    ensures OrderedFrom(s, p) <==> (|s| > 0 ==> s[0].offset >= p) && Chained(s)
    decreases |s|
  {
    if |s| > 0 {
      OrderedFromIff(s[1..], End(s[0]));
      if Chained(s[1..]) && (|s| > 1 ==> End(s[0]) <= s[1].offset) {
        forall i | 0 <= i < |s| - 1
          ensures End(s[i]) <= s[i + 1].offset
        {
          if i > 0 {
            assert s[i] == s[1..][i - 1] && s[i + 1] == s[1..][i];
          }
        }
      }
      if Chained(s) {
        forall i | 0 <= i < |s[1..]| - 1
          ensures End(s[1..][i]) <= s[1..][i + 1].offset
        {
          assert s[1..][i] == s[i + 1] && s[1..][i + 1] == s[i + 2];
        }
      }
    }
  }

  lemma {:induction false} ChainedOrder(s: seq<Replacement>, i: int, j: int)
    requires Chained(s) && 0 <= i < j < |s|
    ensures End(s[i]) <= s[j].offset
    decreases j - i
  {
    if j > i + 1 {
      ChainedOrder(s, i, j - 1);
      assert End(s[j - 1]) <= s[j].offset;
    }
  }

  /** A block of entries replaced by one entry spanning the same bytes keeps the list sorted and in bounds. */
  lemma SpliceSorted(s: seq<Replacement>, i: int, j: int, x: Replacement, size: nat)
    requires Sorted(s) && AllInBounds(s, size) && 0 <= i < j <= |s|
    requires x.offset == s[i].offset && End(x) == End(s[j - 1])
    ensures Sorted(s[..i] + [x] + s[j..]) && AllInBounds(s[..i] + [x] + s[j..], size)
  {
    var t := s[..i] + [x] + s[j..];
    assert InBounds(s[i], size) && InBounds(s[j - 1], size);
    forall k | 0 <= k < |t| - 1
      ensures End(t[k]) <= t[k + 1].offset
    {
      if k + 1 < i {
        assert t[k] == s[k] && t[k + 1] == s[k + 1];
      } else if k + 1 == i {
        assert t[k] == s[k] && t[k + 1] == x;
      } else if k == i {
        assert t[k + 1] == s[j];
      } else {
        assert t[k] == s[k - i - 1 + j] && t[k + 1] == s[k - i + j];
      }
    }
    forall k | 0 <= k < |t|
      ensures InBounds(t[k], size)
    {
      if k > i {
        assert t[k] == s[k - i - 1 + j];
      }
    }
    if i == 0 {
      assert t[0] == x;
    } else {
      assert t[0] == s[0];
    }
  }

  /** An entry that fits between its neighbours keeps the list sorted and in bounds. */
  lemma InsertSorted(s: seq<Replacement>, i: int, x: Replacement, size: nat)
    requires Sorted(s) && AllInBounds(s, size) && 0 <= i <= |s| && InBounds(x, size)
    requires i > 0 ==> End(s[i - 1]) <= x.offset
    requires i < |s| ==> End(x) <= s[i].offset
    ensures Sorted(s[..i] + [x] + s[i..]) && AllInBounds(s[..i] + [x] + s[i..], size)
  {
    var t := s[..i] + [x] + s[i..];
    forall k | 0 <= k < |t| - 1
      ensures End(t[k]) <= t[k + 1].offset
    {
      if k + 1 < i {
        assert t[k] == s[k] && t[k + 1] == s[k + 1];
      } else if k + 1 == i {
        assert t[k] == s[k] && t[k + 1] == x;
      } else if k == i {
        assert t[k + 1] == s[i];
      } else {
        assert t[k] == s[k - 1] && t[k + 1] == s[k];
      }
    }
    forall k | 0 <= k < |t|
      ensures InBounds(t[k], size)
    {
      if k > i {
        assert t[k] == s[k - 1];
      }
    }
  }

  // Patch algebra

  lemma PatchAt(c: seq<bv8>, r: Replacement, i: int)
    requires InBounds(r, |c|) && 0 <= i < |c|
    ensures Patch(c, r)[i] == if r.offset <= i < End(r) then Written(c, r)[i - r.offset] else c[i]
  {
    if r.offset <= i < End(r) {
      assert Patch(c, r)[r.offset..End(r)][i - r.offset] == Patch(c, r)[i];
    }
  }

  /** Patches over disjoint spans commute. */
  lemma PatchCommute(c: seq<bv8>, r1: Replacement, r2: Replacement)
    requires InBounds(r1, |c|) && InBounds(r2, |c|) && End(r1) <= r2.offset
    ensures Patch(Patch(c, r1), r2) == Patch(Patch(c, r2), r1)
  {
    var p1, p2 := Patch(c, r1), Patch(c, r2);
    WrittenApart(c, r1, r2);
    forall i | 0 <= i < |c|
      ensures Patch(p1, r2)[i] == Patch(p2, r1)[i]
    {
      PatchAt(c, r1, i);
      PatchAt(c, r2, i);
      PatchAt(p1, r2, i);
      PatchAt(p2, r1, i);
    }
  }

  /** Patching one of two disjoint entries does not change what the other writes. */
  lemma WrittenApart(c: seq<bv8>, r1: Replacement, r2: Replacement)
    requires InBounds(r1, |c|) && InBounds(r2, |c|) && End(r1) <= r2.offset
    ensures Written(Patch(c, r1), r2) == Written(c, r2)
    ensures Written(Patch(c, r2), r1) == Written(c, r1)
  {
    if r2.Single? {
      PatchAt(c, r1, r2.offset);
    }
    if r1.Single? {
      PatchAt(c, r2, r1.offset);
    }
  }

  lemma {:induction false} PatchAllAppend(c: seq<bv8>, s1: seq<Replacement>, s2: seq<Replacement>)
    ensures PatchAll(c, s1 + s2) == PatchAll(PatchAll(c, s1), s2)
    decreases |s1|
  {
    if s1 != [] {
      assert (s1 + s2)[1..] == s1[1..] + s2;
      PatchAllAppend(Patch(c, s1[0]), s1[1..], s2);
    } else {
      assert s1 + s2 == s2;
    }
  }

  /** A patch that ends before every entry of a list commutes past the whole list. */
  lemma {:induction false} PatchPastAll(c: seq<bv8>, s: seq<Replacement>, a: Replacement)
    requires AllInBounds(s, |c|) && InBounds(a, |c|)
    requires forall k :: 0 <= k < |s| ==> End(a) <= s[k].offset
    ensures Patch(PatchAll(c, s), a) == PatchAll(Patch(c, a), s)
    decreases |s|
  {
    if s != [] {
      PatchPastAll(Patch(c, s[0]), s[1..], a);
      PatchCommute(c, a, s[0]);
    }
  }

  /** Two single edits of one byte, in order, write what their merged entry writes. */
  lemma SameOffsetPatch(c: seq<bv8>, after: Replacement, a: Replacement)
    requires after.Single? && a.Single? && after.offset == a.offset && NibbleFits(after)
    requires InBounds(a, |c|)
    ensures Patch(Patch(c, after), a) == Patch(c, MergedSingle(after, a))
  {
    MergedSingleMeansBoth(after, a, c[a.offset]);
  }

  /** A byte patch is the one-byte run. */
  lemma RunPatch(c: seq<bv8>, r: Replacement)
    requires Run(r).Some? && InBounds(r, |c|)
    ensures InBounds(Run(r).value, |c|) && Patch(c, Run(r).value) == Patch(c, r)
  {
  }

  /** Two touching runs write what their concatenation writes. */
  lemma FuseRanges(c: seq<bv8>, r1: Replacement, r2: Replacement)
    requires r1.Range? && r2.Range? && r2.offset == End(r1) && InBounds(r1, |c|) && InBounds(r2, |c|)
    ensures Patch(Patch(c, r1), r2) == Patch(c, Range(r1.offset, r1.bytes + r2.bytes))
  {
    var lhs, rhs := Patch(Patch(c, r1), r2), Patch(c, Range(r1.offset, r1.bytes + r2.bytes));
    forall i | 0 <= i < |c|
      ensures lhs[i] == rhs[i]
    {
      PatchAt(c, r1, i);
      PatchAt(Patch(c, r1), r2, i);
      PatchAt(c, Range(r1.offset, r1.bytes + r2.bytes), i);
    }
  }

  lemma SliceInBounds(s: seq<Replacement>, size: nat, i: int, j: int)
    requires AllInBounds(s, size) && 0 <= i <= j <= |s|
    ensures AllInBounds(s[i..j], size)
  {
    forall k | 0 <= k < j - i
      ensures InBounds(s[i..j][k], size)
    {
      assert s[i..j][k] == s[i + k];
    }
  }

  lemma SuffixInBounds(s: seq<Replacement>, size: nat, i: int)
    requires AllInBounds(s, size) && 0 <= i <= |s|
    ensures AllInBounds(s[i..], size)
  {
    forall k | 0 <= k < |s| - i
      ensures InBounds(s[i..][k], size)
    {
      assert s[i..][k] == s[i + k];
    }
  }

  /** Replacing a block of entries by one that writes the same keeps the meaning of the list. */
  lemma {:induction false} SpliceSameMeaning(c: seq<bv8>, s: seq<Replacement>, i: int, j: int, x: Replacement)
    requires 0 <= i <= j <= |s|
    requires Patch(PatchAll(c, s[..i]), x) == PatchAll(PatchAll(c, s[..i]), s[i..j])
    ensures PatchAll(c, s[..i] + [x] + s[j..]) == PatchAll(c, s)
  {
    var pre, mid, post, rest := s[..i], s[i..j], s[j..], s[i..];
    var y := PatchAll(c, pre);
    var tail := [x] + post;
    assert tail[0] == x && tail[1..] == post;
    PatchAllAppend(c, pre, tail);
    PatchAllAppend(y, mid, post);
    PatchAllAppend(c, pre, rest);
    assert pre + tail == s[..i] + [x] + s[j..];
    MidJoin(s, i, j);
    SplitJoin(s, i);
  }

  lemma MidJoin<T>(s: seq<T>, i: int, j: int)
    requires 0 <= i <= j <= |s|
    ensures s[i..j] + s[j..] == s[i..]
  {
  }

  lemma {:induction false} PatchAllTwo(c: seq<bv8>, r1: Replacement, r2: Replacement)
    ensures PatchAll(c, [r1, r2]) == Patch(Patch(c, r1), r2)
  {
    var p1 := Patch(c, r1);
    assert [r1, r2][0] == r1 && [r1, r2][1..] == [r2];
    assert PatchAll(c, [r1, r2]) == PatchAll(p1, [r2]);
    assert [r2][0] == r2 && [r2][1..] == [];
    assert PatchAll(p1, [r2]) == PatchAll(Patch(p1, r2), []);
  }

  lemma {:induction false} PatchAllThree(c: seq<bv8>, r1: Replacement, r2: Replacement, r3: Replacement)
    ensures PatchAll(c, [r1, r2, r3]) == Patch(Patch(Patch(c, r1), r2), r3)
  {
    assert [r1, r2, r3][1..] == [r2, r3];
    PatchAllTwo(Patch(c, r1), r2, r3);
  }

  /** A run of entries [s[i], ..., s[j-1]] that one range `x` rewrites is replaced by it: sorted, in bounds, same meaning. */
  lemma {:induction false} FuseBlock(c: seq<bv8>, s: seq<Replacement>, i: int, j: int, x: Replacement)
    requires Sorted(s) && AllInBounds(s, |c|) && 0 <= i < j <= |s|
    requires x.offset == s[i].offset && End(x) == End(s[j - 1])
    requires Patch(PatchAll(c, s[..i]), x) == PatchAll(PatchAll(c, s[..i]), s[i..j])
    ensures var t := s[..i] + [x] + s[j..];
            Sorted(t) && AllInBounds(t, |c|) && PatchAll(c, t) == PatchAll(c, s)
  {
    SpliceSameMeaning(c, s, i, j, x);
    SpliceSorted(s, i, j, x, |c|);
  }

  /** Three touching entries, run + byte + run, write what one range of all their bytes writes. */
  lemma {:induction false} FuseThree(y: seq<bv8>, q: Replacement, a: Replacement, r: Replacement, p: Replacement, n: Replacement)
    requires InBounds(q, |y|) && InBounds(a, |y|) && InBounds(r, |y|)
    requires a.Single? && a.kind == Whole && Run(q) == Some(p) && Run(r) == Some(n)
    requires p.Range? && n.Range? && End(p) == a.offset && n.offset == a.offset + 1
    ensures PatchAll(y, [q, a, r]) == Patch(y, Range(p.offset, p.bytes + [a.value] + n.bytes))
  {
    var joined := Range(p.offset, p.bytes + [a.value]);
    assert Patch(Patch(y, q), a) == Patch(y, joined) by {
      RunPatch(y, q);
      RunPatch(Patch(y, p), a);
      FuseRanges(y, p, Range(a.offset, [a.value]));
    }
    assert Patch(Patch(y, joined), r) == Patch(y, Range(p.offset, p.bytes + [a.value] + n.bytes)) by {
      RunPatch(Patch(y, joined), r);
      FuseRanges(y, joined, n);
    }
    PatchAllThree(y, q, a, r);
  }

  /** A byte between two runs it touches: the three become one range. */
  lemma CoalesceBoth(c: seq<bv8>, s: seq<Replacement>, a: Replacement, loc: nat, p: Replacement, n: Replacement)
    requires Sorted(s) && AllInBounds(s, |c|) && loc < |s| && s[loc] == a && a.Single? && a.kind == Whole
    requires JoinsPrev(s, a, loc) == Some(p) && JoinsNext(s, a, loc) == Some(n)
    ensures var t := s[..loc - 1] + [Range(p.offset, p.bytes + [a.value] + n.bytes)] + s[loc + 2..];
            Sorted(t) && AllInBounds(t, |c|) && PatchAll(c, t) == PatchAll(c, s)
  {
    var x := Range(p.offset, p.bytes + [a.value] + n.bytes);
    var y := PatchAll(c, s[..loc - 1]);
    assert s[loc - 1..loc + 2] == [s[loc - 1], a, s[loc + 1]];
    FuseThree(y, s[loc - 1], a, s[loc + 1], p, n);
    FuseBlock(c, s, loc - 1, loc + 2, x);
  }

  /** A byte right after a run it touches, with no run touching it after: appended to the run. */
  lemma CoalescePrev(c: seq<bv8>, s: seq<Replacement>, a: Replacement, loc: nat, p: Replacement)
    requires Sorted(s) && AllInBounds(s, |c|) && loc < |s| && s[loc] == a && a.Single? && a.kind == Whole
    requires JoinsPrev(s, a, loc) == Some(p)
    ensures var t := s[..loc - 1] + [Range(p.offset, p.bytes + [a.value])] + s[loc + 1..];
            Sorted(t) && AllInBounds(t, |c|) && PatchAll(c, t) == PatchAll(c, s)
  {
    var x := Range(p.offset, p.bytes + [a.value]);
    var y := PatchAll(c, s[..loc - 1]);
    assert s[loc - 1..loc + 1] == [s[loc - 1], a];
    FuseTwo(y, s[loc - 1], a, p);
    FuseBlock(c, s, loc - 1, loc + 1, x);
  }

  /** A run followed by a byte it touches writes what the extended run writes. */
  lemma FuseTwo(y: seq<bv8>, q: Replacement, a: Replacement, p: Replacement)
    requires InBounds(q, |y|) && InBounds(a, |y|)
    requires a.Single? && a.kind == Whole && Run(q) == Some(p) && p.Range? && End(p) == a.offset
    ensures PatchAll(y, [q, a]) == Patch(y, Range(p.offset, p.bytes + [a.value]))
  {
    var runA := Range(a.offset, [a.value]);
    RunPatch(y, q);
    RunPatch(Patch(y, p), a);
    FuseRanges(y, p, runA);
    PatchAllTwo(y, q, a);
  }

  /** A byte right before a run it touches: the run now starts at the byte. */
  lemma CoalesceNext(c: seq<bv8>, s: seq<Replacement>, a: Replacement, loc: nat, n: Replacement)
    requires Sorted(s) && AllInBounds(s, |c|) && loc < |s| && s[loc] == a && a.Single? && a.kind == Whole
    requires JoinsNext(s, a, loc) == Some(n)
    ensures var t := s[..loc] + [Range(a.offset, [a.value] + n.bytes)] + s[loc + 2..];
            Sorted(t) && AllInBounds(t, |c|) && PatchAll(c, t) == PatchAll(c, s)
  {
    var x := Range(a.offset, [a.value] + n.bytes);
    var y := PatchAll(c, s[..loc]);
    assert s[loc..loc + 2] == [a, s[loc + 1]];
    FuseAhead(y, a, s[loc + 1], n);
    FuseBlock(c, s, loc, loc + 2, x);
  }

  /** A byte followed by a run it touches writes what the run extended backwards writes. */
  lemma FuseAhead(y: seq<bv8>, a: Replacement, r: Replacement, n: Replacement)
    requires InBounds(a, |y|) && InBounds(r, |y|)
    requires a.Single? && a.kind == Whole && Run(r) == Some(n) && n.Range? && n.offset == a.offset + 1
    ensures PatchAll(y, [a, r]) == Patch(y, Range(a.offset, [a.value] + n.bytes))
  {
    var runA := Range(a.offset, [a.value]);
    RunPatch(y, a);
    RunPatch(Patch(y, runA), r);
    FuseRanges(y, runA, n);
    PatchAllTwo(y, a, r);
  }

  /** The coalescing step (with the run starting at the byte) keeps the list sorted, in bounds, and its meaning. */
  lemma {:induction false} CoalesceKeeps(c: seq<bv8>, s: seq<Replacement>, a: Replacement, loc: nat)
    requires Sorted(s) && AllInBounds(s, |c|) && loc < |s| && s[loc] == a && a.Single?
    ensures var t := Coalesce(s, a, loc, false);
            Sorted(t) && AllInBounds(t, |c|) && PatchAll(c, t) == PatchAll(c, s)
  {
    if a.kind == Whole {
      var prev, next := JoinsPrev(s, a, loc), JoinsNext(s, a, loc);
      if prev.Some? && next.Some? {
        CoalesceBoth(c, s, a, loc, prev.value, next.value);
      } else if prev.Some? {
        assert prev.value.bytes + [a.value] + [] == prev.value.bytes + [a.value];
        CoalescePrev(c, s, a, loc, prev.value);
      } else if next.Some? {
        CoalesceNext(c, s, a, loc, next.value);
      }
    }
  }

  lemma {:induction false} PatchAllSplit(c: seq<bv8>, pre: seq<Replacement>, x: Replacement, post: seq<Replacement>)
    ensures PatchAll(c, pre + [x] + post) == PatchAll(Patch(PatchAll(c, pre), x), post)
  {
    var tail := [x] + post;
    assert tail[0] == x && tail[1..] == post;
    assert pre + [x] + post == pre + tail;
    PatchAllAppend(c, pre, tail);
  }

  /** Every entry from `from` on starts at or after `e`. */
  lemma TailAfter(s: seq<Replacement>, from: int, e: int)
    requires Chained(s) && 0 <= from < |s| && e <= s[from].offset
    ensures forall k :: 0 <= k < |s[from..]| ==> e <= s[from..][k].offset
  {
    forall k | 0 <= k < |s[from..]|
      ensures e <= s[from..][k].offset
    {
      if k > 0 {
        ChainedOrder(s, from, from + k);
      }
    }
  }

  /** An addition past every entry: appended, and it means the old list then the edit. */
  lemma {:induction false} FixedAppendStep(b: seq<bv8>, reps: seq<Replacement>, a: Replacement)
    requires Sorted(reps) && AllInBounds(reps, |b|) && InBounds(a, |b|) && reps != []
    requires forall j :: 0 <= j < |reps| ==> End(reps[j]) <= a.offset
    ensures var t := reps + [a];
            Sorted(t) && AllInBounds(t, |b|) && PatchAll(b, t) == Patch(PatchAll(b, reps), a)
  {
    InsertSorted(reps, |reps|, a, |b|);
    assert reps[..|reps|] + [a] + reps[|reps|..] == reps + [a];
    PatchAllSplit(b, reps, a, []);
    assert reps + [a] + [] == reps + [a];
  }

  /** A single addition on a single entry at its offset: merged in place, same meaning as both in turn. */
  lemma FixedMergeStep(b: seq<bv8>, reps: seq<Replacement>, a: Replacement, loc: nat)
    requires Sorted(reps) && AllInBounds(reps, |b|) && AllFit(reps) && InBounds(a, |b|) && loc < |reps|
    requires a.Single? && reps[loc].Single? && reps[loc].offset == a.offset
    ensures var t := reps[loc := MergedSingle(reps[loc], a)];
            Sorted(t) && AllInBounds(t, |b|) && PatchAll(b, t) == Patch(PatchAll(b, reps), a)
  {
    var m := MergedSingle(reps[loc], a);
    SpliceAt(reps, loc, m);
    SpliceSorted(reps, loc, loc + 1, m, |b|);
    MergeMeaning(b, reps, a, loc);
  }

  /** Merging the addition into the entry at its offset writes what the entry and then the addition write. */
  lemma MergeMeaning(b: seq<bv8>, reps: seq<Replacement>, a: Replacement, loc: nat)
    requires Sorted(reps) && AllInBounds(reps, |b|) && AllFit(reps) && InBounds(a, |b|) && loc < |reps|
    requires a.Single? && reps[loc].Single? && reps[loc].offset == a.offset
    ensures PatchAll(b, reps[loc := MergedSingle(reps[loc], a)]) == Patch(PatchAll(b, reps), a)
  {
    var after := reps[loc];
    var m := MergedSingle(after, a);
    var pre, post := reps[..loc], reps[loc + 1..];
    SpliceAt(reps, loc, m);
    PickOut(reps, loc);
    var y := PatchAll(b, pre);
    PatchAllSplit(b, pre, m, post);
    PatchAllSplit(b, pre, after, post);
    assert NibbleFits(reps[loc]);
    SameOffsetPatch(y, after, a);
    PastMerged(b, reps, a, loc);
  }

  /** The entries after the merged one start past the addition, so it commutes with them. */
  lemma {:induction false} PastMerged(b: seq<bv8>, reps: seq<Replacement>, a: Replacement, loc: nat)
    requires Sorted(reps) && AllInBounds(reps, |b|) && InBounds(a, |b|) && loc < |reps|
    requires a.Single? && reps[loc].Single? && reps[loc].offset == a.offset
    ensures var c := Patch(PatchAll(b, reps[..loc]), reps[loc]);
            Patch(PatchAll(c, reps[loc + 1..]), a) == PatchAll(Patch(c, a), reps[loc + 1..])
  {
    var c := Patch(PatchAll(b, reps[..loc]), reps[loc]);
    SuffixInBounds(reps, |b|, loc + 1);
    if loc + 1 < |reps| {
      TailAfter(reps, loc + 1, End(a));
    }
    PatchPastAll(c, reps[loc + 1..], a);
  }

  /** A single addition that ends before entry `loc` and starts after entry `loc - 1`: spliced in there. */
  lemma {:induction false} FixedInsertStep(b: seq<bv8>, reps: seq<Replacement>, a: Replacement, loc: nat)
    requires Sorted(reps) && AllInBounds(reps, |b|) && InBounds(a, |b|) && loc < |reps|
    requires loc > 0 ==> End(reps[loc - 1]) <= a.offset
    requires End(a) <= reps[loc].offset
    ensures var t := reps[..loc] + [a] + reps[loc..];
            Sorted(t) && AllInBounds(t, |b|) && PatchAll(b, t) == Patch(PatchAll(b, reps), a)
  {
    InsertSorted(reps, loc, a, |b|);
    var pre, post := reps[..loc], reps[loc..];
    SplitJoin(reps, loc);
    assert PatchAll(b, pre + [a] + post) == Patch(PatchAll(b, reps), a) by {
      var y := PatchAll(b, pre);
      PatchAllSplit(b, pre, a, post);
      SliceInBounds(reps, |b|, loc, |reps|);
      assert post == reps[loc..|reps|];
      TailAfter(reps, loc, End(a));
      PatchPastAll(y, post, a);
      PatchAllAppend(b, pre, post);
    }
  }

  lemma SpliceAt<T>(s: seq<T>, i: nat, x: T)
    requires i < |s|
    ensures s[i := x] == s[..i] + [x] + s[i + 1..]
  {
  }

  lemma PickOut<T>(s: seq<T>, i: nat)
    requires i < |s|
    ensures s == s[..i] + [s[i]] + s[i + 1..]
  {
  }

  lemma SplitJoin<T>(s: seq<T>, i: nat)
    requires i <= |s|
    ensures s[..i] + s[i..] == s
  {
  }

  /**
   * The mended merge keeps an ascending, in-bounds list ascending and in
   * bounds, and the merged list writes exactly what the old list followed by
   * the addition writes — for any single edit that does not fall inside a
   * range entry.
   */
  lemma {:induction false} AddedFixedKeepsOrderAndMeaning(b: seq<bv8>, reps: seq<Replacement>, a: Replacement)
    requires Sorted(reps) && AllInBounds(reps, |b|) && AllFit(reps)
    requires a.Single? && InBounds(a, |b|) && OutsideRanges(reps, a.offset)
    ensures AddedFixed(reps, a).Ok?
    ensures Sorted(AddedFixed(reps, a).value) && AllInBounds(AddedFixed(reps, a).value, |b|)
    ensures PatchAll(b, AddedFixed(reps, a).value) == Patch(PatchAll(b, reps), a)
  {
    if reps == [] {
      assert [a][1..] == [];
    } else {
      match Located(reps, a.offset)
      case None =>
        FixedAppendStep(b, reps, a);
        CoalesceKeeps(b, reps + [a], a, |reps|);
      case Some(loc) =>
        var after := reps[loc];
        if after.Single? && after.offset == a.offset {
          var m := MergedSingle(after, a);
          FixedMergeStep(b, reps, a, loc);
          CoalesceKeeps(b, reps[loc := m], m, loc);
        } else {
          assert End(a) <= after.offset by {
            if after.Range? {
              assert !(after.offset <= a.offset < End(after));
            }
          }
          FixedInsertStep(b, reps, a, loc);
          CoalesceKeeps(b, reps[..loc] + [a] + reps[loc..], a, loc);
        }
    }
  }

  /**
   * What the mending buys at the level of `apply`: the list is still
   * accepted, and applying it equals applying the old list and then the
   * addition.
   */
  lemma {:induction false} ApplyAfterAddFixed(b: seq<bv8>, reps: seq<Replacement>, a: Replacement)
    requires Sorted(reps) && AllInBounds(reps, |b|) && AllFit(reps)
    requires a.Single? && InBounds(a, |b|) && OutsideRanges(reps, a.offset)
    ensures ApplyFrom(b, reps, 0).Ok? && AddedFixed(reps, a).Ok?
    ensures ApplyFrom(b, AddedFixed(reps, a).value, 0) == Ok(Patch(ApplyFrom(b, reps, 0).value, a))
  {
    AddedFixedKeepsOrderAndMeaning(b, reps, a);
    var t := AddedFixed(reps, a).value;
    OrderedFromIff(reps, 0);
    OrderedFromIff(t, 0);
    ApplyIsPatchAll(b, reps);
    ApplyIsPatchAll(b, t);
  }
}
