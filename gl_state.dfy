/**
 * The per-context vertex-attribute bookkeeping of the model viewer: a list
 * of enabled attribute locations per rendering context, synchronised with
 * the set a draw call needs by enabling the missing ones and disabling the
 * extra ones. The enable/disable calls made are recorded as a log.
 */
module GlState {

  datatype GlCall = Enable(attrib: int) | Disable(attrib: int)

  predicate NoDuplicates(s: seq<int>) {
    forall i, j :: 0 <= i < j < |s| ==> s[i] != s[j]
  }

  /** Every entry of `s` occurs in `t`. */
  predicate Within(s: seq<int>, t: seq<int>) {
    forall i :: 0 <= i < |s| ==> s[i] in t
  }

  /**
   * The first loop: walking the requested attributes in order, those not
   * yet in the list (as it grows) are appended. This is what gets appended.
   */
  function NewAttribs(current: seq<int>, attribs: seq<int>): (r: seq<int>)
    decreases |attribs|
  {
    if attribs == [] then []
    else if attribs[0] in current then NewAttribs(current, attribs[1..])
    else [attribs[0]] + NewAttribs(current + [attribs[0]], attribs[1..])
  }

  function Enables(s: seq<int>): (r: seq<GlCall>)
    ensures |r| == |s|
  {
    if s == [] then [] else [Enable(s[0])] + Enables(s[1..])
  }

  /** The entries of `s` that are requested, in order. */
  function Kept(s: seq<int>, attribs: seq<int>): (r: seq<int>)
    decreases |s|
  {
    if s == [] then []
    else Kept(s[..|s| - 1], attribs) + (if s[|s| - 1] in attribs then [s[|s| - 1]] else [])
  }

  /** The entries of `s` that are not requested, in order: the ones disabled. */
  function Dropped(s: seq<int>, attribs: seq<int>): (r: seq<int>)
    decreases |s|
  {
    if s == [] then []
    else Dropped(s[..|s| - 1], attribs) + (if s[|s| - 1] in attribs then [] else [s[|s| - 1]])
  }

  function Disables(s: seq<int>): (r: seq<GlCall>)
    ensures |r| == |s|
  {
    if s == [] then [] else [Disable(s[0])] + Disables(s[1..])
  }

  /** One step of the first loop, at request `k`. */
  lemma {:induction false} NewAttribsStep(current: seq<int>, attribs: seq<int>, k: nat)
    requires k < |attribs|
    ensures attribs[k] in current ==> NewAttribs(current, attribs[k..]) == NewAttribs(current, attribs[k + 1..])
    ensures attribs[k] !in current ==>
              NewAttribs(current, attribs[k..]) == [attribs[k]] + NewAttribs(current + [attribs[k]], attribs[k + 1..])
  {
    assert attribs[k..][0] == attribs[k] && attribs[k..][1..] == attribs[k + 1..];
  }

  lemma {:induction false} EnablesCons(x: int, s: seq<int>)
    ensures Enables([x] + s) == [Enable(x)] + Enables(s)
  {
    assert ([x] + s)[1..] == s;
  }

  lemma {:induction false} KeptMembers(s: seq<int>, attribs: seq<int>)
    ensures forall x :: x in Kept(s, attribs) <==> x in s && x in attribs
    decreases |s|
  {
    if s != [] {
      var init := s[..|s| - 1];
      KeptMembers(init, attribs);
      assert s == init + [s[|s| - 1]];
    }
  }

  lemma {:induction false} DroppedMembers(s: seq<int>, attribs: seq<int>)
    ensures forall x :: x in Dropped(s, attribs) <==> x in s && x !in attribs
    decreases |s|
  {
    if s != [] {
      var init := s[..|s| - 1];
      DroppedMembers(init, attribs);
      assert s == init + [s[|s| - 1]];
    }
  }

  lemma {:induction false} EnablesAt(s: seq<int>, i: nat)
    requires i < |s|
    ensures Enables(s)[i] == Enable(s[i])
  {
    if i > 0 {
      EnablesAt(s[1..], i - 1);
    }
  }

  lemma {:induction false} DisablesAt(s: seq<int>, i: nat)
    requires i < |s|
    ensures Disables(s)[i] == Disable(s[i])
  {
    if i > 0 {
      DisablesAt(s[1..], i - 1);
    }
  }

  /** The list after `update_enabled_vertex_attribs`. */
  function Synced(current: seq<int>, attribs: seq<int>): seq<int> {
    Kept(current + NewAttribs(current, attribs), attribs)
  }

  /** The calls `update_enabled_vertex_attribs` makes: enables, then disables. */
  function SyncCalls(current: seq<int>, attribs: seq<int>): seq<GlCall> {
    Enables(NewAttribs(current, attribs)) + Disables(Dropped(current + NewAttribs(current, attribs), attribs))
  }

  /** What is appended was requested and not already listed, once each; everything requested ends up listed. */
  lemma {:induction false} NewAttribsFacts(current: seq<int>, attribs: seq<int>)
    ensures forall x :: x in NewAttribs(current, attribs) ==> x in attribs && x !in current
    ensures forall x :: x in attribs ==> x in current + NewAttribs(current, attribs)
    ensures NoDuplicates(current) ==> NoDuplicates(current + NewAttribs(current, attribs))
    decreases |attribs|
  {
    if attribs != [] {
      var a := attribs[0];
      var rest := attribs[1..];
      assert attribs == [a] + rest;
      if a in current {
        NewAttribsFacts(current, rest);
      } else {
        var c := current + [a];
        NewAttribsFacts(c, rest);
        assert current + NewAttribs(current, attribs) == c + NewAttribs(c, rest);
        if NoDuplicates(current) {
          assert NoDuplicates(c);
        }
      }
    }
  }

  lemma {:induction false} KeptAppend(s: seq<int>, t: seq<int>, attribs: seq<int>)
    ensures Kept(s + t, attribs) == Kept(s, attribs) + Kept(t, attribs)
    decreases |t|
  {
    if t == [] {
      assert s + t == s;
    } else {
      var u := t[..|t| - 1];
      assert (s + t)[..|s + t| - 1] == s + u;
      KeptAppend(s, u, attribs);
    }
  }

  lemma {:induction false} KeptAll(s: seq<int>, attribs: seq<int>)
    requires Within(s, attribs)
    ensures Kept(s, attribs) == s
    decreases |s|
  {
    if s != [] {
      var init := s[..|s| - 1];
      KeptAll(init, attribs);
      assert s[|s| - 1] in attribs;
      assert init + [s[|s| - 1]] == s;
    }
  }

  lemma {:induction false} KeptNoDuplicates(s: seq<int>, attribs: seq<int>)
    requires NoDuplicates(s)
    ensures NoDuplicates(Kept(s, attribs))
    decreases |s|
  {
    if s != [] {
      var init := s[..|s| - 1];
      KeptNoDuplicates(init, attribs);
      KeptMembers(init, attribs);
      assert s[|s| - 1] !in init;
    }
  }

  /** After the call exactly the requested attributes are listed. */
  lemma SyncedMembers(current: seq<int>, attribs: seq<int>)
    ensures forall x :: x in Synced(current, attribs) <==> x in attribs
  {
    NewAttribsFacts(current, attribs);
    KeptMembers(current + NewAttribs(current, attribs), attribs);
  }

  /** The list stays duplicate-free. */
  lemma SyncedNoDuplicates(current: seq<int>, attribs: seq<int>)
    requires NoDuplicates(current)
    ensures NoDuplicates(Synced(current, attribs))
  {
    NewAttribsFacts(current, attribs);
    KeptNoDuplicates(current + NewAttribs(current, attribs), attribs);
  }

  /** Retained entries keep their order and the new ones follow, in request order. */
  lemma {:induction false} SyncedOrder(current: seq<int>, attribs: seq<int>)
    ensures Synced(current, attribs) == Kept(current, attribs) + NewAttribs(current, attribs)
  {
    var n := NewAttribs(current, attribs);
    NewAttribsFacts(current, attribs);
    KeptAppend(current, n, attribs);
    assert Within(n, attribs) by {
      forall i | 0 <= i < |n|
        ensures n[i] in attribs
      {
        var x := n[i];
        assert x in n;
        assert x in attribs;
      }
    }
    KeptAll(n, attribs);
  }

  /** Enable is issued only for attributes newly listed, disable only for listed ones no longer requested. */
  lemma SyncCallsSpec(current: seq<int>, attribs: seq<int>, c: GlCall)
    requires c in SyncCalls(current, attribs)
    ensures c.Enable? ==> c.attrib in attribs && c.attrib !in current
    ensures c.Disable? ==> c.attrib in current && c.attrib !in attribs
  {
    var n := NewAttribs(current, attribs);
    NewAttribsFacts(current, attribs);
    var k :| 0 <= k < |SyncCalls(current, attribs)| && SyncCalls(current, attribs)[k] == c;
    if k < |n| {
      EnablesAt(n, k);
      assert c == Enable(n[k]);
    } else {
      var d := Dropped(current + n, attribs);
      DroppedMembers(current + n, attribs);
      DisablesAt(d, k - |n|);
      assert c == Disable(d[k - |n|]);
      assert d[k - |n|] in d;
    }
  }

  /** A second identical call finds nothing to do. */
  lemma SyncTwice(current: seq<int>, attribs: seq<int>)
    ensures Synced(Synced(current, attribs), attribs) == Synced(current, attribs)
    ensures SyncCalls(Synced(current, attribs), attribs) == []
  {
    var s := Synced(current, attribs);
    SyncedMembers(current, attribs);
    assert Within(attribs, s) by {
      forall i | 0 <= i < |attribs|
        ensures attribs[i] in s
      {
        var x := attribs[i];
        assert x in attribs;
        assert x in s;
      }
    }
    assert Within(s, attribs) by {
      forall i | 0 <= i < |s|
        ensures s[i] in attribs
      {
        var x := s[i];
        assert x in s;
        assert x in attribs;
      }
    }
    NewAttribsNone(s, attribs);
    assert s + [] == s;
    KeptAll(s, attribs);
    DroppedNone(s, attribs);
  }

  lemma {:induction false} NewAttribsNone(current: seq<int>, attribs: seq<int>)
    requires Within(attribs, current)
    ensures NewAttribs(current, attribs) == []
    decreases |attribs|
  {
    if attribs != [] {
      assert attribs[0] in current;
      NewAttribsNone(current, attribs[1..]);
    }
  }

  lemma {:induction false} DroppedNone(s: seq<int>, attribs: seq<int>)
    requires Within(s, attribs)
    ensures Dropped(s, attribs) == []
    decreases |s|
  {
    if s != [] {
      var init := s[..|s| - 1];
      DroppedNone(init, attribs);
      assert s[|s| - 1] in attribs;
    }
  }

  /** The per-context state objects and the log of calls made on the contexts. */
  class ContextStates {
    var lists: map<nat, seq<int>>
    var calls: seq<GlCall>

    constructor ()
      ensures lists == map[] && calls == []
    {
      lists := map[];
      calls := [];
    }

    /** `get_state_obj`: a context seen for the first time gets an empty list. */
    method StateFor(gl: nat) returns (list: seq<int>)
      modifies this
      ensures gl in old(lists) ==> lists == old(lists) && list == old(lists)[gl]
      ensures gl !in old(lists) ==> lists == old(lists)[gl := []] && list == []
      ensures calls == old(calls)
    {
      if gl !in lists {
        lists := lists[gl := []];
      }
      list := lists[gl];
    }

    /** The first loop of `update_enabled_vertex_attribs`: append and enable what is requested but not listed. */
    method EnableMissing(current: seq<int>, attribs: seq<int>) returns (r: seq<int>)
      modifies this
      ensures r == current + NewAttribs(current, attribs)
      ensures calls == old(calls) + Enables(NewAttribs(current, attribs)) && lists == old(lists)
    {
      r := current;
      for k := 0 to |attribs|
        invariant r + NewAttribs(r, attribs[k..]) == current + NewAttribs(current, attribs)
        invariant calls + Enables(NewAttribs(r, attribs[k..])) == old(calls) + Enables(NewAttribs(current, attribs))
        invariant lists == old(lists)
      {
        var attrib := attribs[k];
        NewAttribsStep(r, attribs, k);
        if attrib !in r {
          EnablesCons(attrib, NewAttribs(r + [attrib], attribs[k + 1..]));
          ghost var later := NewAttribs(r + [attrib], attribs[k + 1..]);
          assert r + ([attrib] + later) == (r + [attrib]) + later;
          assert calls + ([Enable(attrib)] + Enables(later)) == (calls + [Enable(attrib)]) + Enables(later);
          r := r + [attrib];
          calls := calls + [Enable(attrib)];
        }
      }
      assert attribs[|attribs|..] == [];
      assert r + [] == r;
      assert calls + Enables([]) == calls;
    }

    /** The second loop: splice out and disable what is listed but not requested. */
    method DisableUnrequested(current: seq<int>, attribs: seq<int>) returns (r: seq<int>)
      modifies this
      ensures r == Kept(current, attribs)
      ensures calls == old(calls) + Disables(Dropped(current, attribs)) && lists == old(lists)
    {
      r := current;
      var i: int := 0;
      ghost var j := 0;
      while i < |r|
        invariant 0 <= i <= |r| && 0 <= j <= |current|
        invariant r[..i] == Kept(current[..j], attribs)
        invariant r[i..] == current[j..]
        invariant calls == old(calls) + Disables(Dropped(current[..j], attribs))
        invariant lists == old(lists)
        decreases |current| - j
      {
        var attrib := r[i];
        SpliceStep(r, i, current, j, attribs);
        if attrib !in attribs {
          DisablesSnoc(Dropped(current[..j], attribs), attrib);
        }
        if attrib !in attribs {
          r := r[..i] + r[i + 1..];
          i := i - 1;
          calls := calls + [Disable(attrib)];
        }
        i := i + 1;
        j := j + 1;
      }
      assert current[..j] == current;
    }

    /** `update_enabled_vertex_attribs`. */
    method UpdateEnabledVertexAttribs(gl: nat, attribs: seq<int>)
      modifies this
      ensures var before := if gl in old(lists) then old(lists)[gl] else [];
              lists == old(lists)[gl := Synced(before, attribs)] &&
              calls == old(calls) + SyncCalls(before, attribs)
    {
      ghost var start := lists;
      var current := StateFor(gl);
      ghost var before := current;
      ghost var log := calls;
      ghost var listed := lists;
      assert listed == start || listed == start[gl := []];
      current := EnableMissing(current, attribs);
      current := DisableUnrequested(current, attribs);
      assert calls == log + SyncCalls(before, attribs) by {
        assert calls == (log + Enables(NewAttribs(before, attribs))) + Disables(Dropped(before + NewAttribs(before, attribs), attribs));
      }
      assert current == Synced(before, attribs);
      lists := lists[gl := current];
      if listed != start {
        Overwrite(start, gl, [], current);
      }
    }
  }

  /**
   * One round of the splicing loop: entry `i` of the working list is entry
   * `j` of the original; it stays and is passed, or is cut out and dropped.
   */
  lemma SpliceStep(r: seq<int>, i: nat, current: seq<int>, j: nat, attribs: seq<int>)
    requires i < |r| && j < |current|
    requires r[..i] == Kept(current[..j], attribs) && r[i..] == current[j..]
    ensures r[i] == current[j]
    ensures current[j] in attribs ==>
              r[..i + 1] == Kept(current[..j + 1], attribs) && r[i + 1..] == current[j + 1..] &&
              Dropped(current[..j + 1], attribs) == Dropped(current[..j], attribs)
    ensures current[j] !in attribs ==>
              (r[..i] + r[i + 1..])[..i] == Kept(current[..j + 1], attribs) &&
              (r[..i] + r[i + 1..])[i..] == current[j + 1..] &&
              Dropped(current[..j + 1], attribs) == Dropped(current[..j], attribs) + [current[j]]
  {
    assert r[i] == r[i..][0] == current[j];
    assert current[..j + 1][..j] == current[..j];
    assert r[i + 1..] == r[i..][1..] == current[j..][1..] == current[j + 1..];
    if current[j] in attribs {
      assert r[..i + 1] == r[..i] + [r[i]];
      assert Dropped(current[..j], attribs) + [] == Dropped(current[..j], attribs);
    } else {
      var r2 := r[..i] + r[i + 1..];
      assert r2[..i] == r[..i] && r2[i..] == r[i + 1..];
      assert Kept(current[..j], attribs) + [] == Kept(current[..j], attribs);
    }
  }

  /** A second update of the same key replaces the first. */
  lemma Overwrite(m: map<nat, seq<int>>, k: nat, a: seq<int>, b: seq<int>)
    ensures m[k := a][k := b] == m[k := b]
  {
  }

  lemma {:induction false} DisablesSnoc(s: seq<int>, x: int)
    ensures Disables(s + [x]) == Disables(s) + [Disable(x)]
  {
    if s != [] {
      assert (s + [x])[1..] == s[1..] + [x];
      DisablesSnoc(s[1..], x);
    }
  }
}
