/**
 * The image-list edits of src/App.jsx: appending uploads (`handleUpload`),
 * moving one image to another position (`handleReorder`, two
 * `Array.prototype.splice` calls on a copy) and removing an image by id
 * (`handleRemove`, a `filter`).
 */
module Gallery {
  import opened Wrappers
  import opened Media
  import Preview

  // ---------------------------------------------------------------------------
  // Upload
  // ---------------------------------------------------------------------------

  /** A picked file; only its name is read. */
  datatype FileEntry = FileEntry(name: string)

  /**
   * `files.map(file => ({ file, id, url, name: file.name }))`, with the
   * random ids and object URLs supplied by the caller.
   */
  function NewItems(files: seq<FileEntry>, ids: seq<string>, urls: seq<string>): (items: seq<Item>)
    requires |ids| == |files| && |urls| == |files|
    ensures |items| == |files|
    ensures forall k :: 0 <= k < |items| ==>
      items[k].id == ids[k] && items[k].url == urls[k] && items[k].name == files[k].name
  {
    seq(|files|, k requires 0 <= k < |files| => Item(ids[k], urls[k], files[k].name))
  }

  /** `handleUpload`: the new items follow every existing item, in file order. */
  function HandleUpload(prev: seq<Item>, files: seq<FileEntry>, ids: seq<string>, urls: seq<string>): (items: seq<Item>)
    requires |ids| == |files| && |urls| == |files|
    ensures |items| == |prev| + |files|
    ensures items[..|prev|] == prev
    ensures items[|prev|..] == NewItems(files, ids, urls)
  {
    prev + NewItems(files, ids, urls)
  }

  // ---------------------------------------------------------------------------
  // Remove
  // ---------------------------------------------------------------------------

  /** Whether some item carries the id. */
  predicate HasId(items: seq<Item>, id: string)
  {
    exists k :: 0 <= k < |items| && items[k].id == id
  }

  /**
   * `handleRemove`: `items.filter(i => i.id !== id)`. Every item with another
   * id is kept as many times as it occurred, and none with this id is.
   */
  function HandleRemove(items: seq<Item>, id: string): (kept: seq<Item>)
    ensures |kept| <= |items|
    ensures forall k :: 0 <= k < |kept| ==> kept[k].id != id
    ensures forall x :: multiset(kept)[x] == if x.id == id then 0 else multiset(items)[x]
  {
    if items == [] then []
    else
      var rest := HandleRemove(items[1..], id);
      assert items == [items[0]] + items[1..];
      if items[0].id == id then rest else [items[0]] + rest
  }

  /** Filtering a concatenation filters each part. */
  lemma {:induction false} RemoveConcat(xs: seq<Item>, ys: seq<Item>, id: string)
    ensures HandleRemove(xs + ys, id) == HandleRemove(xs, id) + HandleRemove(ys, id)
  {
    if xs == [] {
      assert xs + ys == ys;
    } else {
      var zs := xs + ys;
      assert zs[0] == xs[0] && zs[1..] == xs[1..] + ys;
      RemoveConcat(xs[1..], ys, id);
      var tail := HandleRemove(xs[1..], id) + HandleRemove(ys, id);
      if xs[0].id == id {
        assert HandleRemove(zs, id) == tail;
      } else {
        assert HandleRemove(zs, id) == [xs[0]] + tail;
      }
    }
  }

  /** Removing an id no item carries leaves the list as it was. */
  lemma {:induction false} RemoveAbsent(items: seq<Item>, id: string)
    requires !HasId(items, id)
    ensures HandleRemove(items, id) == items
  {
    if items != [] {
      assert !HasId(items[1..], id) by {
        forall k | 0 <= k < |items| - 1 ensures items[1..][k].id != id {
          assert items[1..][k] == items[k + 1];
        }
      }
      RemoveAbsent(items[1..], id);
    }
  }

  /** Removing the same id twice removes nothing more the second time. */
  lemma RemoveIdempotent(items: seq<Item>, id: string)
    ensures HandleRemove(HandleRemove(items, id), id) == HandleRemove(items, id)
  {
    var kept := HandleRemove(items, id);
    assert !HasId(kept, id);
    RemoveAbsent(kept, id);
  }

  /**
   * Uploading one file and then removing it by its fresh id gives back the
   * list from before the upload.
   */
  lemma UploadThenRemove(prev: seq<Item>, file: FileEntry, id: string, url: string)
    requires !HasId(prev, id)
    ensures HandleRemove(HandleUpload(prev, [file], [id], [url]), id) == prev
  {
    var added := [Item(id, url, file.name)];
    assert NewItems([file], [id], [url]) == added;
    assert HandleUpload(prev, [file], [id], [url]) == prev + added;
    RemoveConcat(prev, added, id);
    RemoveAbsent(prev, id);
    assert added[1..] == [];
    assert HandleRemove(added, id) == HandleRemove([], id) == [];
  }

  // ---------------------------------------------------------------------------
  // Reorder
  // ---------------------------------------------------------------------------

  /**
   * The position `splice(start, ...)` acts at in a list of `len` items:
   * a negative start counts from the end (never before the first item), a
   * start past the end means the end.
   */
  function RelativeIndex(start: int, len: nat): (k: nat)
    ensures k <= len
    ensures 0 <= start <= len ==> k == start
  {
    if start < 0 then (if len + start < 0 then 0 else len + start)
    else if start < len then start else len
  }

  /**
   * `xs.splice(start, deleteCount, ...insert)`: the list afterwards and the
   * items taken out. `deleteCount` items are taken, but never more than
   * there are from the start position to the end, and a negative count takes none.
   */
  function Splice<T>(xs: seq<T>, start: int, deleteCount: int, insert: seq<T>): (r: (seq<T>, seq<T>))
    ensures var at := RelativeIndex(start, |xs|);
      |r.1| == (if deleteCount < 0 then 0 else if deleteCount > |xs| - at then |xs| - at else deleteCount)
    ensures var at := RelativeIndex(start, |xs|);
      |r.1| <= |xs| - at && |r.0| == |xs| + |insert| - |r.1| && r.0[..at] == xs[..at] && r.0[at..at + |insert|] == insert &&
      r.0[at + |insert|..] == xs[at + |r.1|..] && r.1 == xs[at..at + |r.1|]
  {
    var at := RelativeIndex(start, |xs|);
    var count := if deleteCount < 0 then 0 else if deleteCount > |xs| - at then |xs| - at else deleteCount;
    (xs[..at] + insert + xs[at + count..], xs[at..at + count])
  }

  /**
   * The intended move: the item at `from` taken out and put back so that
   * it ends up at position `to`.
   */
  function Move<T>(xs: seq<T>, from: int, to: int): (ys: seq<T>)
    requires 0 <= from < |xs| && 0 <= to < |xs|
  {
    var rest := xs[..from] + xs[from + 1..];
    rest[..to] + [xs[from]] + rest[to..]
  }

  /**
   * A move keeps the length and the multiset of items, puts the moved item
   * at `to`, and leaves every other item in its relative order.
   */
  lemma MoveProperties<T>(xs: seq<T>, from: int, to: int)
    requires 0 <= from < |xs| && 0 <= to < |xs|
    ensures var ys := Move(xs, from, to);
      |ys| == |xs| && multiset(ys) == multiset(xs) && ys[to] == xs[from] &&
      ys[..to] + ys[to + 1..] == xs[..from] + xs[from + 1..]
  {
    var rest := xs[..from] + xs[from + 1..];
    var ys := Move(xs, from, to);
    assert xs == xs[..from] + [xs[from]] + xs[from + 1..];
    assert multiset(xs) == multiset(xs[..from]) + multiset([xs[from]]) + multiset(xs[from + 1..]);
    assert rest == rest[..to] + rest[to..];
    assert multiset(rest) == multiset(xs[..from]) + multiset(xs[from + 1..]);
    assert multiset(rest) == multiset(rest[..to]) + multiset(rest[to..]);
    assert ys == rest[..to] + [xs[from]] + rest[to..];
    assert multiset(ys) == multiset(rest[..to]) + multiset([xs[from]]) + multiset(rest[to..]);
    assert multiset(ys) == multiset(rest) + multiset([xs[from]]);
    assert multiset(xs) == multiset(rest) + multiset([xs[from]]);
    assert ys[..to] == rest[..to];
    assert ys[to + 1..] == rest[to..];
  }

  /** Moving an item to where it already is changes nothing. */
  lemma MoveIdentity<T>(xs: seq<T>, i: int)
    requires 0 <= i < |xs|
    ensures Move(xs, i, i) == xs
  {
    var rest := xs[..i] + xs[i + 1..];
    assert rest[..i] == xs[..i];
    assert rest[i..] == xs[i + 1..];
    assert xs == xs[..i] + [xs[i]] + xs[i + 1..];
  }

  /** Moving back undoes a move. */
  lemma MoveInverse<T>(xs: seq<T>, from: int, to: int)
    requires 0 <= from < |xs| && 0 <= to < |xs|
    ensures Move(Move(xs, from, to), to, from) == xs
  {
    var ys := Move(xs, from, to);
    MoveProperties(xs, from, to);
    var rest := xs[..from] + xs[from + 1..];
    assert ys[..to] + ys[to + 1..] == rest;
    assert rest[..from] == xs[..from];
    assert rest[from..] == xs[from + 1..];
    assert xs == xs[..from] + [xs[from]] + xs[from + 1..];
  }

  /**
   * `handleReorder`: copy the list, splice one item out at `oldIndex`, splice
   * it back in at `newIndex` of the shortened list. Both indices follow
   * `splice`'s rules for negative and too-large positions; the result is the
   * move between the positions they denote.
   */
  method HandleReorder(items: seq<Item>, oldIndex: int, newIndex: int) returns (newItems: seq<Item>)
    requires |items| >= 1 && oldIndex < |items|
    ensures RelativeIndex(oldIndex, |items|) < |items|
    ensures newItems == Move(items, RelativeIndex(oldIndex, |items|), RelativeIndex(newIndex, |items| - 1))
  {
    newItems := items;
    var taken := Splice(newItems, oldIndex, 1, []);
    newItems := taken.0;
    var removed := taken.1;
    assert |removed| == 1;
    newItems := Splice(newItems, newIndex, 0, removed).0;
    var from := RelativeIndex(oldIndex, |items|);
    var to := RelativeIndex(newIndex, |items| - 1);
    assert taken.0 == items[..from] + items[from + 1..];
    assert removed == [items[from]];
  }

  /** Reordering between two equal in-range positions leaves the list unchanged. */
  lemma ReorderSamePosition(items: seq<Item>, i: int)
    requires 0 <= i < |items|
    ensures RelativeIndex(i, |items|) == i && RelativeIndex(i, |items| - 1) == i
    ensures Move(items, RelativeIndex(i, |items|), RelativeIndex(i, |items| - 1)) == items
  {
    MoveIdentity(items, i);
  }

  /**
   * A drag of one image onto another, followed by the reorder the
   * application performs: the dragged item lands where the target item was,
   * and the list keeps its items.
   */
  lemma DragOntoAnother(items: seq<Item>, loaded: seq<LoadedImage>, i: int, j: int)
    requires |loaded| == |items|
    requires forall k :: 0 <= k < |items| ==> loaded[k].item == items[k]
    requires 0 <= i < |items| && 0 <= j < |items| && items[i].id != items[j].id
    requires forall k :: 0 <= k < |items| && items[k].id == items[i].id ==> k == i
    requires forall k :: 0 <= k < |items| && items[k].id == items[j].id ==> k == j
    ensures var outcome := Preview.HandleDragEnd(loaded, items[i].id, Some(items[j].id));
      outcome == Preview.ReorderImages(i, j) &&
      var ys := Move(items, RelativeIndex(outcome.oldIndex, |items|), RelativeIndex(outcome.newIndex, |items| - 1));
      ys[j] == items[i] && multiset(ys) == multiset(items)
  {
    var oi := Preview.FindIndex(loaded, items[i].id);
    var ni := Preview.FindIndex(loaded, items[j].id);
    assert loaded[i].Id() == items[i].id;
    assert loaded[j].Id() == items[j].id;
    assert oi == i;
    assert ni == j;
    MoveProperties(items, i, j);
  }
}
