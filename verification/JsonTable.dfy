/** The object table of the JSON library (kmod/parson.c): item arrays in insertion order
    and an open-addressed index over them, with growth, swap-with-last removal and
    backward-shift repair of the index. */
module JsonTable {
  import opened Types
  import opened Probing
  import opened Sorting

  const EMPTY := -1
  const STARTING_CAPACITY := 16

  // ------------------------------------------------------------------ the index

  ghost predicate Inverse(cells: seq<int>, pos: seq<nat>)
  {
    && (forall i :: 0 <= i < |pos| ==> pos[i] < |cells| && cells[pos[i]] == i)
    && (forall p :: 0 <= p < |cells| && cells[p] != EMPTY ==> 0 <= cells[p] < |pos| && pos[cells[p]] == p)
  }

  /** No item sits behind an empty cell on the way from its home. */
  ghost predicate Reachable(cells: seq<int>, pos: seq<nat>, hashes: seq<nat>)
    requires |hashes| == |pos|
  {
    forall i, q :: 0 <= i < |pos| && 0 <= q < |cells| && cells[q] == EMPTY ==>
      !Between(Home(hashes[i], |cells|), q, pos[i])
  }

  ghost predicate Indexed(cells: seq<int>, pos: seq<nat>, hashes: seq<nat>)
  {
    |hashes| == |pos| && Inverse(cells, pos) && Reachable(cells, pos, hashes)
  }

  ghost predicate HasFree(cells: seq<int>) { exists q :: 0 <= q < |cells| && cells[q] == EMPTY }

  function ToInt(p: nat): int { p }

  /** While there are fewer items than cells, some cell is empty. */
  lemma FreeCellExists(cells: seq<int>, pos: seq<nat>)
    requires Inverse(cells, pos) && |pos| < |cells|
    ensures HasFree(cells)
  {
    var all, used := Range(|cells|), Keys(pos, ToInt);
    DistinctCounts(pos, ToInt);
    assert all * used == used * all;
    assert |all| == |all - used| + |all * used| && |used| == |used - all| + |used * all|;
    var q :| q in all - used;
    assert q in all;
    forall p | 0 <= p < |cells| && cells[p] != EMPTY ensures p in used {
      assert pos[cells[p]] in pos && ToInt(pos[cells[p]]) == p;
    }
    assert cells[q] == EMPTY;
  }

  // ------------------------------------------------------------------ adding

  /** A probe stops at `ix` with every cell before it on the way from `home` taken. */
  ghost predicate ProbeEnd(cells: seq<int>, home: nat, ix: nat)
  {
    && ix < |cells| && cells[ix] == EMPTY
    && (forall q :: 0 <= q < |cells| && q != ix && Between(home, q, ix) ==> cells[q] != EMPTY)
  }

  lemma AddKeepsIndex(cells: seq<int>, pos: seq<nat>, hashes: seq<nat>, hash: nat, ix: nat)
    requires Indexed(cells, pos, hashes) && ProbeEnd(cells, Home(hash, |cells|), ix)
    ensures Indexed(cells[ix := |pos|], pos + [ix], hashes + [hash])
  {
  }

  // ------------------------------------------------------------------ removing

  /** The index with a hole at `hole`: what the hole's cell says is ignored, and items whose
      way crosses the hole lie beyond `j`. */
  ghost predicate Holed(cells: seq<int>, pos: seq<nat>, hashes: seq<nat>, hole: nat, j: nat)
  {
    && |hashes| == |pos| && hole < |cells| && j < |cells|
    && (forall i :: 0 <= i < |pos| ==> pos[i] < |cells| && pos[i] != hole && cells[pos[i]] == i)
    && (forall p :: 0 <= p < |cells| && p != hole && cells[p] != EMPTY ==> 0 <= cells[p] < |pos| && pos[cells[p]] == p)
    && (forall i, q :: 0 <= i < |pos| && 0 <= q < |cells| && q != hole && cells[q] == EMPTY ==>
          !Between(Home(hashes[i], |cells|), q, pos[i]))
    && (forall i :: 0 <= i < |pos| && Between(Home(hashes[i], |cells|), hole, pos[i]) ==> !After(hole, pos[i], j))
  }

  /** The condition under which the repair loop moves the item at `j` into the hole. */
  predicate Shifts(i: nat, j: nat, k: nat)
  {
    (j > i && (k <= i || k > j)) || (j < i && (k <= i && k > j))
  }

  lemma ShiftsMeaning(i: nat, j: nat, k: nat)
    requires i != j
    ensures Shifts(i, j, k) <==> Between(k, i, j)
  {
  }

  /** Moving the item at `j` into the hole: the hole is now at `j`. */
  lemma MoveStep(cells: seq<int>, pos: seq<nat>, hashes: seq<nat>, hole: nat, j: nat, j': nat)
    requires Holed(cells, pos, hashes, hole, j) && j' == Next(j, |cells|) && j' != hole && cells[j'] != EMPTY
    requires Between(Home(hashes[cells[j']], |cells|), hole, j')
    ensures Holed(cells[hole := cells[j']], pos[cells[j'] := hole], hashes, j', j')
  {
  }

  /** Leaving the item at `j` where it is. */
  lemma SkipStep(cells: seq<int>, pos: seq<nat>, hashes: seq<nat>, hole: nat, j: nat, j': nat)
    requires Holed(cells, pos, hashes, hole, j) && j' == Next(j, |cells|) && j' != hole && cells[j'] != EMPTY
    requires !Between(Home(hashes[cells[j']], |cells|), hole, j')
    ensures Holed(cells, pos, hashes, hole, j')
  {
    assert forall i :: 0 <= i < |pos| && pos[i] == j' ==> i == cells[j'];
  }

  /** An empty cell right after `j` ends the repair: nothing crosses the hole any more. */
  lemma CloseHole(cells: seq<int>, pos: seq<nat>, hashes: seq<nat>, hole: nat, j: nat)
    requires Holed(cells, pos, hashes, hole, j) && Next(j, |cells|) != hole && cells[Next(j, |cells|)] == EMPTY
    ensures Indexed(cells[hole := EMPTY], pos, hashes)
  {
  }

  function Swap<T>(xs: seq<T>, item: nat): (r: seq<T>)
    requires item < |xs|
    ensures |r| == |xs| - 1
    ensures forall i :: 0 <= i < |r| ==> r[i] == if i == item then xs[|xs| - 1] else xs[i]
  {
    xs[item := xs[|xs| - 1]][..|xs| - 1]
  }

  function SwapCells(cells: seq<int>, pos: seq<nat>, item: nat): (r: seq<int>)
    requires item < |pos| && pos[|pos| - 1] < |cells|
    ensures |r| == |cells|
  {
    if item < |pos| - 1 then cells[pos[|pos| - 1] := item] else cells
  }

  /** Removing item `item` and moving the last item into its place leaves a hole. */
  lemma SwapLeavesHole(cells: seq<int>, pos: seq<nat>, hashes: seq<nat>, item: nat)
    requires Indexed(cells, pos, hashes) && item < |pos|
    ensures Holed(SwapCells(cells, pos, item), Swap(pos, item), Swap(hashes, item), pos[item], pos[item])
  {
    var last := |pos| - 1;
    var cells', pos', hashes' := SwapCells(cells, pos, item), Swap(pos, item), Swap(hashes, item);
    forall i | 0 <= i < |pos'|
      ensures pos'[i] < |cells'| && pos'[i] != pos[item] && cells'[pos'[i]] == i
    {
      var from := if i == item then last else i;
      assert cells[pos[from]] == from && cells[pos[item]] == item;
    }
    forall i, q | 0 <= i < |pos'| && 0 <= q < |cells'| && q != pos[item] && cells'[q] == EMPTY
      ensures !Between(Home(hashes'[i], |cells'|), q, pos'[i])
    {
      var from := if i == item then last else i;
      assert cells[q] == EMPTY;
      assert !Between(Home(hashes[from], |cells|), q, pos[from]);
    }
  }

  // ------------------------------------------------------------------ the object

  ghost predicate DistinctNames(names: seq<string>)
  {
    forall i, j :: 0 <= i < j < |names| ==> names[i] != names[j]
  }

  /** The finite map that the item arrays stand for. */
  ghost function Entries<V>(names: seq<string>, values: seq<V>): (m: map<string, V>)
    requires |names| == |values|
    ensures forall k :: k in m <==> k in names
  {
    map k | k in names :: values[IndexOf(names, k)]
  }

  ghost function IndexOf(names: seq<string>, k: string): (i: nat)
    requires k in names
    ensures i < |names| && names[i] == k
  {
    var i :| 0 <= i < |names| && names[i] == k; i
  }

  lemma EntryAt<V>(names: seq<string>, values: seq<V>, i: nat)
    requires |names| == |values| && DistinctNames(names) && i < |names|
    ensures names[i] in Entries(names, values) && Entries(names, values)[names[i]] == values[i]
  {
    assert IndexOf(names, names[i]) == i;
  }

  lemma EntriesAppend<V>(names: seq<string>, values: seq<V>, k: string, v: V)
    requires |names| == |values| && DistinctNames(names) && k !in names
    ensures DistinctNames(names + [k])
    ensures Entries(names + [k], values + [v]) == Entries(names, values)[k := v]
  {
    var names', values' := names + [k], values + [v];
    forall x | x in names' ensures Entries(names', values')[x] == Entries(names, values)[k := v][x] {
      EntryAt(names', values', IndexOf(names', x));
      if x != k { EntryAt(names, values, IndexOf(names, x)); assert names'[IndexOf(names, x)] == x; }
    }
  }

  lemma EntriesUpdate<V>(names: seq<string>, values: seq<V>, i: nat, v: V)
    requires |names| == |values| && DistinctNames(names) && i < |names|
    ensures Entries(names, values[i := v]) == Entries(names, values)[names[i] := v]
  {
    forall x | x in names ensures Entries(names, values[i := v])[x] == Entries(names, values)[names[i] := v][x] {
      EntryAt(names, values, IndexOf(names, x));
    }
  }

  lemma SwapDistinct(names: seq<string>, i: nat)
    requires DistinctNames(names) && i < |names|
    ensures DistinctNames(Swap(names, i))
  {
  }

  ghost predicate Hashed(names: seq<string>, hashes: seq<nat>, hash: string -> nat)
  {
    |names| == |hashes| && forall i :: 0 <= i < |names| ==> hashes[i] == hash(names[i])
  }

  lemma SwapHashed(names: seq<string>, hashes: seq<nat>, hash: string -> nat, i: nat)
    requires Hashed(names, hashes, hash) && i < |names|
    ensures Hashed(Swap(names, i), Swap(hashes, i), hash)
  {
  }

  lemma SwapMember(names: seq<string>, i: nat, x: string)
    requires DistinctNames(names) && i < |names|
    ensures x in Swap(names, i) <==> x in names && x != names[i]
  {
    var names', last := Swap(names, i), |names| - 1;
    if x in names && x != names[i] {
      var k := IndexOf(names, x);
      assert names'[if k == last then i else k] == x;
    }
    if x in names' {
      var k := IndexOf(names', x);
      assert names[if k == i then last else k] == x;
    }
  }

  lemma EntriesSwap<V>(names: seq<string>, values: seq<V>, i: nat)
    requires |names| == |values| && DistinctNames(names) && i < |names|
    ensures Entries(Swap(names, i), Swap(values, i)) == Entries(names, values) - {names[i]}
  {
    var before, after := Entries(names, values) - {names[i]}, Entries(Swap(names, i), Swap(values, i));
    SwapDistinct(names, i);
    forall x ensures x in after <==> x in before { SwapMember(names, i, x); }
    forall x | x in after ensures after[x] == before[x] { SwapValue(names, values, i, x); }
  }

  lemma SwapValue<V>(names: seq<string>, values: seq<V>, i: nat, x: string)
    requires |names| == |values| && DistinctNames(names) && i < |names| && x in Swap(names, i)
    ensures x in names && Entries(Swap(names, i), Swap(values, i))[x] == Entries(names, values)[x]
  {
    SwapDistinct(names, i);
    var k := IndexOf(Swap(names, i), x);
    EntryAt(Swap(names, i), Swap(values, i), k);
    EntryAt(names, values, if k == i then |names| - 1 else k);
  }

  function GrownCapacity(n: nat): nat { if n * 2 > STARTING_CAPACITY then n * 2 else STARTING_CAPACITY }

  lemma {:induction false} GrownIsPower(n: nat)
    requires n == 0 || (n >= STARTING_CAPACITY && PowerOfTwo(n))
    ensures PowerOfTwo(GrownCapacity(n)) && GrownCapacity(n) >= STARTING_CAPACITY
    ensures n * 7 / 10 < GrownCapacity(n) * 7 / 10
  {
    assert PowerOfTwo(2) && PowerOfTwo(4) && PowerOfTwo(8) && PowerOfTwo(16);
  }

  /** The invariant of an object, on its fields. */
  ghost predicate TableOk<V>(hash: string -> nat, cells: seq<int>, pos: seq<nat>, hashes: seq<nat>,
                             names: seq<string>, values: seq<V>, itemCapacity: nat)
  {
    && |names| == |values| <= itemCapacity == |cells| * 7 / 10
    && (cells == [] || (|cells| >= STARTING_CAPACITY && PowerOfTwo(|cells|)))
    && Hashed(names, hashes, hash) && DistinctNames(names)
    && Indexed(cells, pos, hashes)
  }

  lemma RemovedOk<V>(hash: string -> nat, cells: seq<int>, pos: seq<nat>, hashes: seq<nat>,
                     names: seq<string>, values: seq<V>, itemCapacity: nat, item: nat, cells': seq<int>, pos': seq<nat>)
    requires TableOk(hash, cells, pos, hashes, names, values, itemCapacity) && item < |names|
    requires |cells'| == |cells| && Indexed(cells', pos', Swap(hashes, item))
    ensures TableOk(hash, cells', pos', Swap(hashes, item), Swap(names, item), Swap(values, item), itemCapacity)
    ensures Entries(Swap(names, item), Swap(values, item)) == Entries(names, values) - {names[item]}
  {
    EntriesSwap(names, values, item);
    SwapDistinct(names, item);
    SwapHashed(names, hashes, hash, item);
  }

  /** Items are refilled one behind the other, none of them twice. */
  lemma NextItem<V>(names: seq<string>, values: seq<V>, i: nat)
    requires i < |names| == |values| && DistinctNames(names)
    ensures names[i] !in names[..i] && names[..i] + [names[i]] == names[..i + 1] &&
            values[..i] + [values[i]] == values[..i + 1]
  {
  }

  class JsonObject<V> {
    const hash: string -> nat
    var cells: seq<int>
    var hashes: seq<nat>
    var names: seq<string>
    var values: seq<V>
    var cellIxs: seq<nat>
    var itemCapacity: nat

    ghost predicate Valid()
      reads this
    {
      TableOk(hash, cells, cellIxs, hashes, names, values, itemCapacity)
    }

    ghost function Contents(): map<string, V>
      reads this
      requires |names| == |values|
    {
      Entries(names, values)
    }

    constructor (h: string -> nat)
      ensures Valid() && hash == h && names == [] && values == [] && cells == []
    {
      hash := h;
      cells, hashes, names, values, cellIxs, itemCapacity := [], [], [], [], [], 0;
    }

    /** json_object_init with a capacity. */
    constructor Sized(h: string -> nat, capacity: nat)
      requires capacity >= STARTING_CAPACITY && PowerOfTwo(capacity)
      ensures Valid() && hash == h && names == [] && values == [] && |cells| == capacity
    {
      hash := h;
      cells := seq(capacity, _ => EMPTY);
      hashes, names, values, cellIxs := [], [], [], [];
      itemCapacity := capacity * 7 / 10;
    }

    /** json_object_get_cell_ix: probe from the home cell. */
    method GetCellIx(key: string) returns (found: bool, ix: nat)
      requires Valid()
      ensures found <==> key in names
      ensures found ==> ix < |cells| && 0 <= cells[ix] < |names| && names[cells[ix]] == key
      ensures !found && cells != [] ==> ProbeEnd(cells, Home(hash(key), |cells|), ix)
    {
      if |cells| == 0 { return false, 0; }
      var home := Home(hash(key), |cells|);
      FreeCellExists(cells, cellIxs);
      ghost var free :| 0 <= free < |cells| && cells[free] == EMPTY;
      for i := 0 to |cells|
        invariant forall q :: 0 <= q < |cells| && Passed(home, i, q, |cells|) ==>
                    cells[q] != EMPTY && names[cells[q]] != key
      {
        ix := if home + i >= |cells| then home + i - |cells| else home + i;
        if cells[ix] == EMPTY {
          NotBefore(key, home, ix, i);
          return false, ix;
        }
        if hashes[cells[ix]] == hash(key) && names[cells[ix]] == key {
          return true, ix;
        }
        PassedNext(home, i, ix, |cells|);
      }
      assert false;
    }

    /** A key that the probe did not meet before an empty cell is not in the table. */
    lemma NotBefore(key: string, home: nat, ix: nat, i: nat)
      requires Valid() && home == Home(hash(key), |cells|) && ix < |cells| && cells[ix] == EMPTY && i < |cells|
      requires ix == if home + i >= |cells| then home + i - |cells| else home + i
      requires forall q :: 0 <= q < |cells| && Passed(home, i, q, |cells|) ==>
                 cells[q] != EMPTY && names[cells[q]] != key
      ensures key !in names && ProbeEnd(cells, home, ix)
    {
      forall k | 0 <= k < |names| ensures names[k] != key {
        if Home(hashes[k], |cells|) == home {
          assert Passed(home, i, cellIxs[k], |cells|);
        }
      }
    }

    method GetValue(key: string) returns (v: Option<V>)
      requires Valid()
      ensures v == if key in Contents() then Some(Contents()[key]) else None
    {
      var found, ix := GetCellIx(key);
      if !found { return None; }
      EntryAt(names, values, cells[ix]);
      return Some(values[cells[ix]]);
    }

    /** Write a new item behind the last one; the cell is the end of its probe. */
    method Append(key: string, v: V, ix: nat)
      requires Valid() && key !in names && |names| < itemCapacity
      requires ProbeEnd(cells, Home(hash(key), |cells|), ix)
      modifies this
      ensures Valid() && names == old(names) + [key] && values == old(values) + [v]
      ensures itemCapacity == old(itemCapacity) && |cells| == old(|cells|)
      ensures Contents() == old(Contents())[key := v]
    {
      AddKeepsIndex(cells, cellIxs, hashes, hash(key), ix);
      EntriesAppend(names, values, key, v);
      cells := cells[ix := |names|];
      cellIxs := cellIxs + [ix];
      hashes := hashes + [hash(key)];
      names, values := names + [key], values + [v];
    }

    /** json_object_grow_and_rehash: a larger table, refilled in item order. */
    method GrowAndRehash()
      requires Valid() && |names| == itemCapacity
      modifies this
      ensures Valid() && names == old(names) && values == old(values)
      ensures |names| < itemCapacity && |cells| == GrownCapacity(old(|cells|))
      decreases 2
    {
      var larger := Rehashed();
      cells, hashes, names, values := larger.cells, larger.hashes, larger.names, larger.values;
      cellIxs, itemCapacity := larger.cellIxs, larger.itemCapacity;
    }

    method Rehashed() returns (larger: JsonObject<V>)
      requires Valid() && |names| == itemCapacity
      ensures fresh(larger) && larger.Valid() && larger.hash == hash
      ensures larger.names == names && larger.values == values
      ensures |names| < larger.itemCapacity && |larger.cells| == GrownCapacity(|cells|)
      decreases 1
    {
      var capacity := GrownCapacity(|cells|);
      GrownIsPower(|cells|);
      larger := new JsonObject<V>.Sized(hash, capacity);
      for i := 0 to |names|
        invariant fresh(larger) && larger.Valid() && larger.hash == hash && |larger.cells| == capacity
        invariant larger.names == names[..i] && larger.values == values[..i]
      {
        NextItem(names, values, i);
        var added := larger.Add(names[i], values[i]);
      }
    }

    /** json_object_add: refuses a key that is present.  The recursion through growing ends
        because the larger table has room. */
    method Add(key: string, v: V) returns (ok: bool)
      requires Valid()
      modifies this
      ensures Valid() && (ok <==> key !in old(names))
      ensures !ok ==> unchanged(this)
      ensures ok ==> names == old(names) + [key] && values == old(values) + [v]
      ensures ok ==> Contents() == old(Contents())[key := v]
      ensures old(|names| < itemCapacity) ==> |cells| == old(|cells|)
      decreases if |names| < itemCapacity then 0 else 3
    {
      var found, ix := GetCellIx(key);
      if found { return false; }
      if |names| >= itemCapacity {
        GrowAndRehash();
        found, ix := GetCellIx(key);
      }
      Append(key, v, ix);
      return true;
    }

    /** json_object_set_value: replace in place or add. */
    method SetValue(key: string, v: V)
      requires Valid()
      modifies this
      ensures Valid() && Contents() == old(Contents())[key := v]
      ensures names == if key in old(names) then old(names) else old(names) + [key]
    {
      var found, ix := GetCellIx(key);
      if found {
        EntriesUpdate(names, values, cells[ix], v);
        values := values[cells[ix] := v];
        return;
      }
      if |names| >= itemCapacity {
        GrowAndRehash();
        found, ix := GetCellIx(key);
      }
      Append(key, v, ix);
    }

    /** json_object_remove_internal: the last item takes the place of the removed one, then
        the run of cells behind the hole is shifted back. */
    method Remove(key: string) returns (ok: bool)
      requires Valid()
      modifies this
      ensures Valid() && (ok <==> key in old(names))
      ensures !ok ==> unchanged(this)
      ensures ok ==> Contents() == old(Contents()) - {key}
      ensures ok ==> exists i :: 0 <= i < old(|names|) && old(names[i]) == key && names == Swap(old(names), i) &&
                                 values == Swap(old(values), i)
    {
      var found, cell := GetCellIx(key);
      if !found { return false; }
      RemoveAt(cells[cell]);
      return true;
    }

    method RemoveAt(item: nat)
      requires Valid() && item < |names|
      modifies this
      ensures Valid() && names == Swap(old(names), item) && values == Swap(old(values), item)
      ensures Contents() == old(Contents()) - {old(names[item])}
    {
      RemoveReady(item);
      var cells', pos' := RepairRun(SwapCells(cells, cellIxs, item), Swap(cellIxs, item), Swap(hashes, item),
                                    cellIxs[item]);
      RemovedOk(hash, cells, cellIxs, hashes, names, values, itemCapacity, item, cells', pos');
      Replace(cells', pos', Swap(hashes, item), Swap(names, item), Swap(values, item));
    }

    method Replace(cells': seq<int>, pos': seq<nat>, hashes': seq<nat>, names': seq<string>, values': seq<V>)
      requires TableOk(hash, cells', pos', hashes', names', values', itemCapacity)
      modifies this
      ensures Valid() && names == names' && values == values'
    {
      cells, cellIxs, hashes, names, values := cells', pos', hashes', names', values';
    }

    lemma RemoveReady(item: nat)
      requires Valid() && item < |names|
      ensures var cells' := SwapCells(cells, cellIxs, item);
        && Holed(cells', Swap(cellIxs, item), Swap(hashes, item), cellIxs[item], cellIxs[item])
        && cells'[cellIxs[item]] != EMPTY && HasFree(cells')
    {
      FreeCellExists(cells, cellIxs);
      var q :| 0 <= q < |cells| && cells[q] == EMPTY;
      SwapLeavesHole(cells, cellIxs, hashes, item);
      assert SwapCells(cells, cellIxs, item)[q] == EMPTY;
    }

    method Clear()
      requires Valid()
      modifies this
      ensures Valid() && names == [] && Contents() == map[] && |cells| == old(|cells|)
    {
      names, values, hashes, cellIxs := [], [], [], [];
      cells := seq(|cells|, _ => EMPTY);
    }
  }

  /** The backward-shift loop of json_object_remove_internal. */
  method RepairRun(was: seq<int>, wasPos: seq<nat>, hashes: seq<nat>, start: nat)
    returns (cells: seq<int>, pos: seq<nat>)
    requires Holed(was, wasPos, hashes, start, start) && was[start] != EMPTY && HasFree(was)
    ensures |cells| == |was| && Indexed(cells, pos, hashes)
  {
    cells, pos := was, wasPos;
    var cap := |was|;
    var i, j := start, start;
    for x := 0 to cap - 1
      invariant |cells| == cap && 0 <= i < cap && 0 <= j < cap
      invariant j == if start + x >= cap then start + x - cap else start + x
      invariant Holed(cells, pos, hashes, i, j) && Between(start, i, j)
      invariant forall q :: 0 <= q < cap ==> (cells[q] == EMPTY <==> was[q] == EMPTY)
      invariant forall q :: 0 <= q < cap && Between(start, q, j) ==> cells[q] != EMPTY
    {
      var j' := Next(j, cap);
      if cells[j'] == EMPTY {
        CloseHole(cells, pos, hashes, i, j);
        cells := cells[i := EMPTY];
        return;
      }
      var k := Home(hashes[cells[j']], cap);
      ShiftsMeaning(i, j', k);
      if Shifts(i, j', k) {
        MoveStep(cells, pos, hashes, i, j, j');
        pos := pos[cells[j'] := i];
        cells := cells[i := cells[j']];
        i := j';
      } else {
        SkipStep(cells, pos, hashes, i, j, j');
      }
      j := j';
    }
    assert false;
  }
}
