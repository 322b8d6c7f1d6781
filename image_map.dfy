/** The gallery page's `imageItems`: a JavaScript `Map` from `"<pictureId>::<index>"` to the
    file chosen for that image slot (`src/app/pictures/page.tsx`). A `Map` remembers the order
    in which its keys were first set, and the reindexing after a delete depends on that order,
    so the map is the sequence of its entries in insertion order: `set` of a new key appends,
    `set` of a present key replaces in place, `delete` removes. A key is the pair its string
    spells. Picture ids are `<Date.now()>-<hex>` (or ids of the same shape in the initial list);
    they contain no ':', so `split('::')[1]` recovers the index and `startsWith(id + '::')`
    holds exactly for the keys of picture `id`. */
module ImageMap {
  import opened Wrappers

  /** An item of the upload dialog: a link, or a chosen file with the preview URL made for it. */
  datatype ImageItem = UrlItem(url: string) | FileItem(previewUrl: string, file: seq<bv8>)

  datatype Key = Key(pictureId: string, index: nat)

  datatype Slot = Slot(key: Key, item: ImageItem)

  function Keys(m: seq<Slot>): set<Key> {
    set x | 0 <= x < |m| :: m[x].key
  }

  lemma KeysAppend(a: seq<Slot>, b: seq<Slot>)
    ensures Keys(a + b) == Keys(a) + Keys(b)
  {
    forall k | k in Keys(a + b) ensures k in Keys(a) + Keys(b) {
      var x :| 0 <= x < |a + b| && (a + b)[x].key == k;
      if x >= |a| {
        assert b[x - |a|].key == k;
      }
    }
    forall k | k in Keys(a) + Keys(b) ensures k in Keys(a + b) {
      if k in Keys(a) {
        var x :| 0 <= x < |a| && a[x].key == k;
        assert (a + b)[x].key == k;
      } else {
        var x :| 0 <= x < |b| && b[x].key == k;
        assert (a + b)[|a| + x].key == k;
      }
    }
  }

  lemma KeysSingle(s: Slot)
    ensures Keys([s]) == {s.key}
  {
    assert [s][0] == s;
  }

  lemma KeysLast(m: seq<Slot>)
    requires m != []
    ensures Keys(m) == Keys(m[..|m| - 1]) + {m[|m| - 1].key}
  {
    assert m == m[..|m| - 1] + [m[|m| - 1]];
    KeysAppend(m[..|m| - 1], [m[|m| - 1]]);
  }

  /** `map.get(k)`. The search runs from the newest entry back; keys are never repeated, so
      this is the entry for `k`. */
  function Get(m: seq<Slot>, k: Key): (r: Option<ImageItem>)
    ensures r.Some? <==> k in Keys(m)
  {
    if m == [] then None
    else
      KeysLast(m);
      if m[|m| - 1].key == k then Some(m[|m| - 1].item) else Get(m[..|m| - 1], k)
  }

  /** `map.set(k, v)`: a present key keeps its place and takes the new value, a new key is
      appended. Either way no key is repeated. */
  function Put(m: seq<Slot>, k: Key, v: ImageItem): (r: seq<Slot>)
    ensures Keys(r) == Keys(m) + {k}
    ensures |r| == if k in Keys(m) then |m| else |m| + 1
  {
    if k in Keys(m) then
      var r := seq(|m|, x requires 0 <= x < |m| => if m[x].key == k then Slot(k, v) else m[x]);
      assert forall x :: 0 <= x < |m| ==> r[x].key == m[x].key;
      assert Keys(r) == Keys(m);
      r
    else
      KeysAppend(m, [Slot(k, v)]);
      KeysSingle(Slot(k, v));
      m + [Slot(k, v)]
  }

  /** The entries whose keys are not in `drop`, in their order. */
  function Without(m: seq<Slot>, drop: set<Key>): (r: seq<Slot>)
    ensures Keys(r) == Keys(m) - drop
    ensures forall x :: 0 <= x < |r| ==> r[x] in m
  {
    if m == [] then []
    else
      var last := m[|m| - 1];
      var init := Without(m[..|m| - 1], drop);
      KeysLast(m);
      KeysAppend(init, if last.key in drop then [] else [last]);
      KeysSingle(last);
      init + if last.key in drop then [] else [last]
  }

  /** `map.delete(k)`. */
  function Delete(m: seq<Slot>, k: Key): (r: seq<Slot>)
    ensures Keys(r) == Keys(m) - {k}
  {
    Without(m, {k})
  }

  /** `x` may stand ahead of `y`: within one picture, the lower index first. */
  predicate Precedes(x: Slot, y: Slot) {
    x.key.pictureId == y.key.pictureId ==> x.key.index < y.key.index
  }

  /** The order every reachable map is in: within each picture, keys in ascending index order.
      It implies that no key is repeated. */
  predicate Ordered(m: seq<Slot>) {
    forall a, b :: 0 <= a < b < |m| ==> Precedes(m[a], m[b])
  }

  lemma OrderedAppend(a: seq<Slot>, b: seq<Slot>)
    requires Ordered(a) && Ordered(b)
    requires forall x, y :: 0 <= x < |a| && 0 <= y < |b| ==> Precedes(a[x], b[y])
    ensures Ordered(a + b)
  {
    forall x, y | 0 <= x < y < |a + b| ensures Precedes((a + b)[x], (a + b)[y]) {
      if y < |a| {
        assert Precedes(a[x], a[y]);
      } else if x >= |a| {
        assert Precedes(b[x - |a|], b[y - |a|]);
      } else {
        assert Precedes(a[x], b[y - |a|]);
      }
    }
  }

  /** In an ordered map, the entry at `x` is what `get` of its key returns. */
  lemma {:induction false} GetAt(m: seq<Slot>, x: nat)
    requires Ordered(m) && x < |m|
    ensures Get(m, m[x].key) == Some(m[x].item)
    decreases |m|
  {
    if x < |m| - 1 {
      assert Precedes(m[x], m[|m| - 1]);
      GetAt(m[..|m| - 1], x);
    }
  }

  lemma {:induction false} GetAppend(a: seq<Slot>, b: seq<Slot>, k: Key)
    ensures Get(a + b, k) == if k in Keys(b) then Get(b, k) else Get(a, k)
    decreases |b|
  {
    if b != [] {
      assert (a + b)[..|a + b| - 1] == a + b[..|b| - 1];
      KeysLast(b);
      GetAppend(a, b[..|b| - 1], k);
    } else {
      assert a + b == a;
    }
  }

  lemma {:induction false} GetWithout(m: seq<Slot>, drop: set<Key>, k: Key)
    requires k !in drop
    ensures Get(Without(m, drop), k) == Get(m, k)
    decreases |m|
  {
    if m != [] {
      var last := m[|m| - 1];
      GetAppend(Without(m[..|m| - 1], drop), if last.key in drop then [] else [last], k);
      GetWithout(m[..|m| - 1], drop, k);
      if last.key !in drop {
        KeysSingle(last);
      } else {
        assert Without(m[..|m| - 1], drop) + [] == Without(m[..|m| - 1], drop);
      }
    }
  }

  lemma {:induction false} WithoutAppend(a: seq<Slot>, b: seq<Slot>, drop: set<Key>)
    ensures Without(a + b, drop) == Without(a, drop) + Without(b, drop)
    decreases |b|
  {
    if b == [] {
      assert a + b == a;
    } else {
      assert (a + b)[..|a + b| - 1] == a + b[..|b| - 1];
      WithoutAppend(a, b[..|b| - 1], drop);
    }
  }

  lemma {:induction false} WithoutWithout(m: seq<Slot>, s: set<Key>, t: set<Key>)
    ensures Without(Without(m, s), t) == Without(m, s + t)
    decreases |m|
  {
    if m != [] {
      var last := m[|m| - 1];
      var init := Without(m[..|m| - 1], s);
      WithoutAppend(init, if last.key in s then [] else [last], t);
      WithoutWithout(m[..|m| - 1], s, t);
    }
  }

  lemma {:induction false} WithoutNothing(m: seq<Slot>, drop: set<Key>)
    requires Keys(m) !! drop
    ensures Without(m, drop) == m
    decreases |m|
  {
    if m != [] {
      KeysLast(m);
      WithoutNothing(m[..|m| - 1], drop);
    }
  }

  lemma WithoutOrdered(m: seq<Slot>, drop: set<Key>)
    requires Ordered(m)
    ensures Ordered(Without(m, drop))
    decreases |m|
  {
    if m != [] {
      var last := m[|m| - 1];
      var init := Without(m[..|m| - 1], drop);
      WithoutOrdered(m[..|m| - 1], drop);
      forall x | 0 <= x < |init| ensures Precedes(init[x], last) {
        var a :| 0 <= a < |m| - 1 && m[..|m| - 1][a] == init[x];
        assert Precedes(m[a], m[|m| - 1]);
      }
      OrderedAppend(init, if last.key in drop then [] else [last]);
    }
  }

  // ----- Deleting every key of one picture -----

  /** The keys of picture `id` among the first `n` entries. */
  function PictureKeys(m: seq<Slot>, id: string, n: nat): set<Key>
    requires n <= |m|
  {
    set x | 0 <= x < n && m[x].key.pictureId == id :: m[x].key
  }

  lemma PictureKeysNext(m: seq<Slot>, id: string, j: nat)
    requires j < |m|
    ensures PictureKeys(m, id, j + 1) == PictureKeys(m, id, j) + if m[j].key.pictureId == id then {m[j].key} else {}
  {
  }

  /** The map after the `for ... of next.keys()` loop that deletes every key starting with
      `id + '::'`. */
  function DropPicture(m: seq<Slot>, id: string): seq<Slot> {
    Without(m, PictureKeys(m, id, |m|))
  }

  /** After the loop, picture `id` has no key left and every other key keeps its value. */
  lemma DropPictureLookup(m: seq<Slot>, id: string, k: Key)
    ensures Get(DropPicture(m, id), k) == if k.pictureId == id then None else Get(m, k)
  {
    if k.pictureId != id {
      GetWithout(m, PictureKeys(m, id, |m|), k);
    } else {
      assert k !in Keys(DropPicture(m, id));
    }
  }

  lemma DropPictureOrdered(m: seq<Slot>, id: string)
    requires Ordered(m)
    ensures Ordered(DropPicture(m, id))
  {
    WithoutOrdered(m, PictureKeys(m, id, |m|));
  }

  // ----- The entries an upload adds -----

  /** The entries `images.forEach` sets for the first `n` items: key `id::k` for each file item
      at position `k`, in ascending `k`. */
  function FileSlots(id: string, images: seq<ImageItem>, n: nat): (r: seq<Slot>)
    requires n <= |images|
    ensures forall x :: 0 <= x < |r| ==> r[x].key.pictureId == id && r[x].key.index < n
  {
    if n == 0 then []
    else FileSlots(id, images, n - 1) + if images[n - 1].FileItem? then [Slot(Key(id, n - 1), images[n - 1])] else []
  }

  lemma {:induction false} FileSlotsOrdered(id: string, images: seq<ImageItem>, n: nat)
    requires n <= |images|
    ensures Ordered(FileSlots(id, images, n))
  {
    if n > 0 {
      FileSlotsOrdered(id, images, n - 1);
      OrderedAppend(FileSlots(id, images, n - 1), if images[n - 1].FileItem? then [Slot(Key(id, n - 1), images[n - 1])] else []);
    }
  }

  /** The slot `id::k` holds the file item at position `k`, and only file items get a slot. */
  lemma {:induction false} FileSlotsLookup(id: string, images: seq<ImageItem>, n: nat, k: Key)
    requires n <= |images|
    ensures Get(FileSlots(id, images, n), k) ==
              if k.pictureId == id && k.index < n && images[k.index].FileItem? then Some(images[k.index]) else None
  {
    if n > 0 {
      var tail := if images[n - 1].FileItem? then [Slot(Key(id, n - 1), images[n - 1])] else [];
      GetAppend(FileSlots(id, images, n - 1), tail, k);
      FileSlotsLookup(id, images, n - 1, k);
      assert Keys(tail) == if images[n - 1].FileItem? then {Key(id, n - 1)} else {};
      if k !in Keys(FileSlots(id, images, n - 1)) && k.pictureId == id && k.index == n - 1 && images[n - 1].FileItem? {
        assert Get(tail, k) == Some(images[n - 1]);
      }
    }
  }

  /** The map after an upload under a fresh id: the old entries untouched, and `id::k` set
      exactly for the file items. */
  lemma UploadLookup(m: seq<Slot>, id: string, images: seq<ImageItem>, k: Key)
    requires forall key :: key in Keys(m) ==> key.pictureId != id
    ensures Get(m + FileSlots(id, images, |images|), k) ==
              if k.pictureId != id then Get(m, k)
              else if k.index < |images| && images[k.index].FileItem? then Some(images[k.index])
              else None
  {
    GetAppend(m, FileSlots(id, images, |images|), k);
    FileSlotsLookup(id, images, |images|, k);
  }

  lemma UploadOrdered(m: seq<Slot>, id: string, images: seq<ImageItem>)
    requires Ordered(m) && forall key :: key in Keys(m) ==> key.pictureId != id
    ensures Ordered(m + FileSlots(id, images, |images|))
  {
    var f := FileSlots(id, images, |images|);
    FileSlotsOrdered(id, images, |images|);
    forall x, y | 0 <= x < |m| && 0 <= y < |f| ensures Precedes(m[x], f[y]) {
      assert m[x].key in Keys(m);
    }
    OrderedAppend(m, f);
  }

  // ----- Reindexing after deleting one image -----

  /** After index `i` of picture `id` is deleted, this entry moves down one place. */
  predicate Shifts(s: Slot, id: string, i: nat) {
    s.key.pictureId == id && s.key.index > i
  }

  /** One element of `keysToUpdate`. */
  datatype Rename = Rename(oldKey: Key, newKey: Key)

  /** `keysToUpdate`: walking the entries in map order, each key `id::k` with `k > i` paired
      with `id::(k-1)`. */
  function Renames(m: seq<Slot>, id: string, i: nat): seq<Rename> {
    if m == [] then []
    else
      var last := m[|m| - 1];
      Renames(m[..|m| - 1], id, i) + if Shifts(last, id, i) then [Rename(last.key, Key(id, last.key.index - 1))] else []
  }

  /** One step of the renaming loop: `get` the old key and, if it holds an item, `set` the new
      key to it and `delete` the old key. */
  function Apply(m: seq<Slot>, r: Rename): seq<Slot> {
    match Get(m, r.oldKey)
    case None => m
    case Some(v) => Delete(Put(m, r.newKey, v), r.oldKey)
  }

  /** The renaming loop: the renames applied first to last. */
  function ApplyAll(m: seq<Slot>, rs: seq<Rename>): seq<Slot>
    decreases |rs|
  {
    if rs == [] then m else ApplyAll(Apply(m, rs[0]), rs[1..])
  }

  /** The map `handleDeleteSingleImage(id, i)` leaves: `id::i` deleted, then the renames
      collected from that map applied in order. */
  function Reindexed(m: seq<Slot>, id: string, i: nat): seq<Slot> {
    var m0 := Delete(m, Key(id, i));
    ApplyAll(m0, Renames(m0, id, i))
  }

  /** The entries the renames move, in map order, beside the renames themselves. */
  ghost function Pending(m: seq<Slot>, id: string, i: nat): (p: seq<Slot>)
    ensures |p| == |Renames(m, id, i)|
    ensures forall l :: 0 <= l < |p| ==>
              && Shifts(p[l], id, i) && p[l] in m
              && Renames(m, id, i)[l] == Rename(p[l].key, Key(id, p[l].key.index - 1))
  {
    if m == [] then []
    else
      var last := m[|m| - 1];
      Pending(m[..|m| - 1], id, i) + if Shifts(last, id, i) then [last] else []
  }

  lemma {:induction false} PendingComplete(m: seq<Slot>, id: string, i: nat, x: nat)
    requires x < |m| && Shifts(m[x], id, i)
    ensures m[x] in Pending(m, id, i)
    decreases |m|
  {
    if x < |m| - 1 {
      PendingComplete(m[..|m| - 1], id, i, x);
    }
  }

  lemma {:induction false} PendingOrdered(m: seq<Slot>, id: string, i: nat)
    requires Ordered(m)
    ensures Ordered(Pending(m, id, i))
    decreases |m|
  {
    if m != [] {
      var last := m[|m| - 1];
      var init := Pending(m[..|m| - 1], id, i);
      PendingOrdered(m[..|m| - 1], id, i);
      forall x | 0 <= x < |init| ensures Precedes(init[x], last) {
        var a :| 0 <= a < |m| - 1 && m[..|m| - 1][a] == init[x];
        assert Precedes(m[a], m[|m| - 1]);
      }
      OrderedAppend(init, if Shifts(last, id, i) then [last] else []);
    }
  }

  /** The keys already renamed after `j` steps. */
  ghost function Done(p: seq<Slot>, j: nat): set<Key>
    requires j <= |p|
  {
    set l | 0 <= l < j :: p[l].key
  }

  /** An entry moved down one index. */
  function Lowered(s: Slot): Slot
    requires s.key.index > 0
  {
    Slot(Key(s.key.pictureId, s.key.index - 1), s.item)
  }

  ghost function Moved(q: seq<Slot>): seq<Slot>
    requires forall l :: 0 <= l < |q| ==> q[l].key.index > 0
  {
    seq(|q|, l requires 0 <= l < |q| => Lowered(q[l]))
  }

  /** The map after `j` steps of the renaming loop: the entries not yet touched and not yet
      renamed, followed by the renamed ones in the order they were set. */
  ghost function State(m: seq<Slot>, id: string, i: nat, j: nat): seq<Slot>
    requires j <= |Pending(m, id, i)|
  {
    var p := Pending(m, id, i);
    assert forall l :: 0 <= l < j ==> p[..j][l] == p[l];
    Without(m, Done(p, j)) + Moved(p[..j])
  }

  /** Within the pending entries, a lower index means an earlier position. */
  lemma PendingAscending(m: seq<Slot>, id: string, i: nat, l: nat, j: nat)
    requires Ordered(m)
    requires l < |Pending(m, id, i)| && j < |Pending(m, id, i)|
    ensures l < j <==> Pending(m, id, i)[l].key.index < Pending(m, id, i)[j].key.index
  {
    var p := Pending(m, id, i);
    PendingOrdered(m, id, i);
    if l < j {
      assert Precedes(p[l], p[j]);
    } else if j < l {
      assert Precedes(p[j], p[l]);
    }
  }

  /** A key of the map that the renames move is renamed within the first `j` steps exactly
      when its index is below that of the `j`-th pending entry. */
  lemma ShiftingKeyDone(m: seq<Slot>, id: string, i: nat, j: nat, y: nat)
    requires Ordered(m)
    requires j < |Pending(m, id, i)| && y < |m| && Shifts(m[y], id, i)
    requires m[y].key.index < Pending(m, id, i)[j].key.index
    ensures m[y].key in Done(Pending(m, id, i), j)
  {
    var p := Pending(m, id, i);
    PendingComplete(m, id, i, y);
    var l :| 0 <= l < |p| && p[l] == m[y];
    PendingAscending(m, id, i, l, j);
  }

  lemma MovedKey(q: seq<Slot>, k: Key)
    requires forall l :: 0 <= l < |q| ==> q[l].key.index > 0
    requires k in Keys(Moved(q))
    ensures exists l :: 0 <= l < |q| && k == Key(q[l].key.pictureId, q[l].key.index - 1)
  {
    var l :| 0 <= l < |q| && Moved(q)[l].key == k;
  }

  /** The key a step sets is free when it is set: no untouched entry and no renamed one has
      it. */
  lemma NewKeyNotUntouched(m: seq<Slot>, id: string, i: nat, j: nat)
    requires Ordered(m) && Key(id, i) !in Keys(m)
    requires j < |Pending(m, id, i)|
    ensures Key(id, Pending(m, id, i)[j].key.index - 1) !in Keys(Without(m, Done(Pending(m, id, i), j)))
  {
    var p := Pending(m, id, i);
    var nk := Key(id, p[j].key.index - 1);
    if nk in Keys(m) {
      var y :| 0 <= y < |m| && m[y].key == nk;
      ShiftingKeyDone(m, id, i, j, y);
    }
  }

  lemma NewKeyNotMoved(m: seq<Slot>, id: string, i: nat, j: nat)
    requires Ordered(m)
    requires j < |Pending(m, id, i)|
    ensures Key(id, Pending(m, id, i)[j].key.index - 1) !in Keys(Moved(Pending(m, id, i)[..j]))
  {
    var p := Pending(m, id, i);
    var nk := Key(id, p[j].key.index - 1);
    var b := Moved(p[..j]);
    if nk in Keys(b) {
      MovedKey(p[..j], nk);
      var l :| 0 <= l < j && nk == Key(p[..j][l].key.pictureId, p[..j][l].key.index - 1);
      PendingAscending(m, id, i, l, j);
    }
  }

  lemma NewKeyFree(m: seq<Slot>, id: string, i: nat, j: nat)
    requires Ordered(m) && Key(id, i) !in Keys(m)
    requires j < |Pending(m, id, i)|
    ensures Key(id, Pending(m, id, i)[j].key.index - 1) !in Keys(State(m, id, i, j))
  {
    var p := Pending(m, id, i);
    NewKeyNotUntouched(m, id, i, j);
    NewKeyNotMoved(m, id, i, j);
    KeysAppend(Without(m, Done(p, j)), Moved(p[..j]));
  }

  /** Before step `j`, the old key still holds its original item. */
  lemma OldKeyPresent(m: seq<Slot>, id: string, i: nat, j: nat)
    requires Ordered(m)
    requires j < |Pending(m, id, i)|
    ensures Get(State(m, id, i, j), Pending(m, id, i)[j].key) == Some(Pending(m, id, i)[j].item)
    ensures Pending(m, id, i)[j].key !in Keys(Moved(Pending(m, id, i)[..j]))
  {
    var p := Pending(m, id, i);
    var k := p[j].key;
    var a := Without(m, Done(p, j));
    var b := Moved(p[..j]);
    if k in Done(p, j) {
      var l :| 0 <= l < j && p[l].key == k;
      PendingAscending(m, id, i, l, j);
    }
    if k in Keys(b) {
      MovedKey(p[..j], k);
      var l :| 0 <= l < j && k == Key(p[..j][l].key.pictureId, p[..j][l].key.index - 1);
      PendingAscending(m, id, i, l, j);
    }
    var x :| 0 <= x < |m| && m[x] == p[j];
    GetAt(m, x);
    GetWithout(m, Done(p, j), k);
    GetAppend(a, b, k);
  }

  /** A rename whose old key holds `v` outside `b`, and whose new key is free: the old entry
      leaves `a`, and the item is appended under the new key. */
  lemma ApplyMovesOne(a: seq<Slot>, b: seq<Slot>, r: Rename, v: ImageItem)
    requires Get(a + b, r.oldKey) == Some(v)
    requires r.newKey !in Keys(a + b) && r.oldKey !in Keys(b) && r.oldKey != r.newKey
    ensures Apply(a + b, r) == Without(a, {r.oldKey}) + b + [Slot(r.newKey, v)]
  {
    var ns := Slot(r.newKey, v);
    assert Apply(a + b, r) == Delete(a + b + [ns], r.oldKey);
    WithoutAppend(a + b, [ns], {r.oldKey});
    WithoutAppend(a, b, {r.oldKey});
    WithoutNothing(b, {r.oldKey});
    KeysSingle(ns);
    WithoutNothing([ns], {r.oldKey});
  }

  /** The `j`-th rename moves the `j`-th pending entry down one index. */
  lemma RenameAt(m: seq<Slot>, id: string, i: nat, j: nat)
    requires j < |Pending(m, id, i)|
    ensures Renames(m, id, i)[j] == Rename(Pending(m, id, i)[j].key, Lowered(Pending(m, id, i)[j]).key)
  {
    assert Shifts(Pending(m, id, i)[j], id, i);
  }

  /** What step `j` does to `State(j)`. */
  lemma StepApplies(m: seq<Slot>, id: string, i: nat, j: nat)
    requires Ordered(m) && Key(id, i) !in Keys(m)
    requires j < |Pending(m, id, i)|
    ensures Apply(State(m, id, i, j), Renames(m, id, i)[j]) == Without(Without(m, Done(Pending(m, id, i), j)), {Pending(m, id, i)[j].key}) + Moved(Pending(m, id, i)[..j]) + [Lowered(Pending(m, id, i)[j])]
  {
    var p := Pending(m, id, i);
    var s := p[j];
    var a := Without(m, Done(p, j));
    var b := Moved(p[..j]);
    var r := Rename(s.key, Lowered(s).key);
    RenameAt(m, id, i, j);
    assert State(m, id, i, j) == a + b;
    OldKeyPresent(m, id, i, j);
    NewKeyFree(m, id, i, j);
    assert Get(a + b, r.oldKey) == Some(s.item);
    ApplyMovesOne(a, b, r, s.item);
  }

  lemma DoneNext(p: seq<Slot>, j: nat)
    requires j < |p|
    ensures Done(p, j) + {p[j].key} == Done(p, j + 1)
  {
  }

  lemma MovedNext(q: seq<Slot>, j: nat)
    requires j < |q| && forall l :: 0 <= l < |q| ==> q[l].key.index > 0
    ensures Moved(q[..j + 1]) == Moved(q[..j]) + [Lowered(q[j])]
  {
  }

  /** `State(j + 1)` in the same terms. */
  lemma StateNext(m: seq<Slot>, id: string, i: nat, j: nat)
    requires j < |Pending(m, id, i)|
    ensures State(m, id, i, j + 1) == Without(Without(m, Done(Pending(m, id, i), j)), {Pending(m, id, i)[j].key}) + Moved(Pending(m, id, i)[..j]) + [Lowered(Pending(m, id, i)[j])]
  {
    var p := Pending(m, id, i);
    WithoutWithout(m, Done(p, j), {p[j].key});
    DoneNext(p, j);
    MovedNext(p, j);
  }

  /** One step of the renaming loop takes `State(j)` to `State(j + 1)`. */
  lemma StepState(m: seq<Slot>, id: string, i: nat, j: nat)
    requires Ordered(m) && Key(id, i) !in Keys(m)
    requires j < |Pending(m, id, i)|
    ensures Apply(State(m, id, i, j), Renames(m, id, i)[j]) == State(m, id, i, j + 1)
  {
    StepApplies(m, id, i, j);
    StateNext(m, id, i, j);
  }

  lemma {:induction false} ApplyFrom(m: seq<Slot>, id: string, i: nat, j: nat)
    requires Ordered(m) && Key(id, i) !in Keys(m)
    requires j <= |Pending(m, id, i)|
    ensures ApplyAll(State(m, id, i, j), Renames(m, id, i)[j..]) == State(m, id, i, |Pending(m, id, i)|)
    decreases |Pending(m, id, i)| - j
  {
    var rs := Renames(m, id, i);
    if j < |rs| {
      StepState(m, id, i, j);
      assert rs[j..][0] == rs[j] && rs[j..][1..] == rs[j + 1..];
      ApplyFrom(m, id, i, j + 1);
    }
  }

  /** `State(0)` is the map the loop starts from, so the whole loop yields the last state. */
  lemma ReindexedState(m: seq<Slot>, id: string, i: nat)
    requires Ordered(m)
    ensures Ordered(Delete(m, Key(id, i)))
    ensures Reindexed(m, id, i) == State(Delete(m, Key(id, i)), id, i, |Pending(Delete(m, Key(id, i)), id, i)|)
  {
    var m0 := Delete(m, Key(id, i));
    var p := Pending(m0, id, i);
    WithoutOrdered(m, {Key(id, i)});
    assert Done(p, 0) == {};
    WithoutNothing(m0, {});
    assert Moved(p[..0]) == [];
    assert State(m0, id, i, 0) == m0;
    ApplyFrom(m0, id, i, 0);
    assert Renames(m0, id, i)[0..] == Renames(m0, id, i);
  }

  lemma MovedOrdered(q: seq<Slot>)
    requires Ordered(q) && forall l :: 0 <= l < |q| ==> q[l].key.index > 0
    ensures Ordered(Moved(q))
  {
    forall a, b | 0 <= a < b < |q| ensures Precedes(Moved(q)[a], Moved(q)[b]) {
      assert Precedes(q[a], q[b]);
    }
  }

  /** What the proofs below use of the pending entries: exactly the moving entries of `m0`,
      in ascending index order. */
  ghost predicate PendingOf(m0: seq<Slot>, p: seq<Slot>, id: string, i: nat) {
    && (forall l :: 0 <= l < |p| ==> Shifts(p[l], id, i) && p[l] in m0)
    && (forall y :: 0 <= y < |m0| && Shifts(m0[y], id, i) ==> m0[y] in p)
    && Ordered(p)
  }

  /** The reindexed map in terms of the pending entries. */
  lemma ReindexedShape(m: seq<Slot>, id: string, i: nat)
    requires Ordered(m)
    ensures var m0 := Delete(m, Key(id, i));
            var p := Pending(m0, id, i);
            && Ordered(m0) && Key(id, i) !in Keys(m0) && PendingOf(m0, p, id, i)
            && Reindexed(m, id, i) == Without(m0, Done(p, |p|)) + Moved(p)
  {
    var m0 := Delete(m, Key(id, i));
    var p := Pending(m0, id, i);
    ReindexedState(m, id, i);
    PendingOrdered(m0, id, i);
    forall y | 0 <= y < |m0| && Shifts(m0[y], id, i) ensures m0[y] in p {
      PendingComplete(m0, id, i, y);
    }
    assert p[..|p|] == p;
  }

  lemma KeepsOthersCore(m0: seq<Slot>, p: seq<Slot>, id: string, i: nat, k: Key)
    requires PendingOf(m0, p, id, i) && (k.pictureId != id || k.index < i)
    ensures Get(Without(m0, Done(p, |p|)) + Moved(p), k) == Get(m0, k)
  {
    var a := Without(m0, Done(p, |p|));
    var b := Moved(p);
    if k in Keys(b) {
      MovedKey(p, k);
    }
    assert k !in Done(p, |p|);
    GetAppend(a, b, k);
    GetWithout(m0, Done(p, |p|), k);
  }

  lemma MovesDownPresent(m0: seq<Slot>, p: seq<Slot>, id: string, i: nat, x: nat)
    requires Ordered(m0) && PendingOf(m0, p, id, i) && x >= i && Key(id, x + 1) in Keys(m0)
    ensures Get(Moved(p), Key(id, x)) == Get(m0, Key(id, x + 1))
    ensures Key(id, x) in Keys(Moved(p))
  {
    var y :| 0 <= y < |m0| && m0[y].key == Key(id, x + 1);
    assert m0[y] in p;
    var l :| 0 <= l < |p| && p[l] == m0[y];
    var b := Moved(p);
    MovedOrdered(p);
    assert b[l] == Slot(Key(id, x), m0[y].item);
    GetAt(b, l);
    GetAt(m0, y);
    assert b[l].key in Keys(b);
  }

  lemma MovesDownAbsent(m0: seq<Slot>, p: seq<Slot>, id: string, i: nat, x: nat)
    requires Key(id, i) !in Keys(m0) && PendingOf(m0, p, id, i) && x >= i && Key(id, x + 1) !in Keys(m0)
    ensures Key(id, x) !in Keys(Without(m0, Done(p, |p|)) + Moved(p))
  {
    var k := Key(id, x);
    KeysAppend(Without(m0, Done(p, |p|)), Moved(p));
    if k in Keys(Moved(p)) {
      MovedKey(p, k);
    }
    if k in Keys(m0) {
      var y :| 0 <= y < |m0| && m0[y].key == k;
      assert m0[y] in p;
    }
  }

  lemma MovesDownCore(m0: seq<Slot>, p: seq<Slot>, id: string, i: nat, x: nat)
    requires Ordered(m0) && Key(id, i) !in Keys(m0) && PendingOf(m0, p, id, i) && x >= i
    ensures Get(Without(m0, Done(p, |p|)) + Moved(p), Key(id, x)) == Get(m0, Key(id, x + 1))
  {
    GetAppend(Without(m0, Done(p, |p|)), Moved(p), Key(id, x));
    if Key(id, x + 1) in Keys(m0) {
      MovesDownPresent(m0, p, id, i, x);
    } else {
      MovesDownAbsent(m0, p, id, i, x);
    }
  }

  lemma CrossPrecedes(m0: seq<Slot>, p: seq<Slot>, id: string, i: nat, s: Slot, l: nat)
    requires Key(id, i) !in Keys(m0) && PendingOf(m0, p, id, i)
    requires s in m0 && s.key !in Done(p, |p|) && l < |p|
    ensures Precedes(s, Lowered(p[l]))
  {
    if s.key.pictureId == id {
      assert s.key in Keys(m0);
    }
  }

  lemma OrderedCore(m0: seq<Slot>, p: seq<Slot>, id: string, i: nat)
    requires Ordered(m0) && Key(id, i) !in Keys(m0) && PendingOf(m0, p, id, i)
    ensures Ordered(Without(m0, Done(p, |p|)) + Moved(p))
  {
    var a := Without(m0, Done(p, |p|));
    var b := Moved(p);
    WithoutOrdered(m0, Done(p, |p|));
    MovedOrdered(p);
    forall x, y | 0 <= x < |a| && 0 <= y < |b| ensures Precedes(a[x], b[y]) {
      assert a[x].key in Keys(a);
      CrossPrecedes(m0, p, id, i, a[x], y);
    }
    OrderedAppend(a, b);
  }

  /** Keys of other pictures, and keys of picture `id` below `i`, keep their items. */
  lemma ReindexedKeepsOthers(m: seq<Slot>, id: string, i: nat, k: Key)
    requires Ordered(m) && (k.pictureId != id || k.index < i)
    ensures Get(Reindexed(m, id, i), k) == Get(m, k)
  {
    var m0 := Delete(m, Key(id, i));
    ReindexedShape(m, id, i);
    KeepsOthersCore(m0, Pending(m0, id, i), id, i, k);
    GetWithout(m, {Key(id, i)}, k);
  }

  /** Key `id::x` with `x >= i` now holds what `id::(x+1)` held, and is absent if that was. */
  lemma ReindexedMovesDown(m: seq<Slot>, id: string, i: nat, x: nat)
    requires Ordered(m) && x >= i
    ensures Get(Reindexed(m, id, i), Key(id, x)) == Get(m, Key(id, x + 1))
  {
    var m0 := Delete(m, Key(id, i));
    ReindexedShape(m, id, i);
    MovesDownCore(m0, Pending(m0, id, i), id, i, x);
    GetWithout(m, {Key(id, i)}, Key(id, x + 1));
  }

  /** The reindexed map is still in ascending order within each picture. */
  lemma ReindexedOrdered(m: seq<Slot>, id: string, i: nat)
    requires Ordered(m)
    ensures Ordered(Reindexed(m, id, i))
  {
    var m0 := Delete(m, Key(id, i));
    ReindexedShape(m, id, i);
    OrderedCore(m0, Pending(m0, id, i), id, i);
  }

  // ----- Why the order matters -----

  lemma DescendingRenames(s3: Slot, s2: Slot)
    requires s3.key == Key("p", 3) && s2.key == Key("p", 2)
    ensures Renames([s3, s2], "p", 1) == [Rename(Key("p", 3), Key("p", 2)), Rename(Key("p", 2), Key("p", 1))]
  {
    assert [s3, s2][..1] == [s3] && [s3][..0] == [];
    assert Renames([s3], "p", 1) == [Rename(Key("p", 3), Key("p", 2))];
  }

  lemma FirstRename(s3: Slot, s2: Slot)
    requires s3.key == Key("p", 3) && s2.key == Key("p", 2)
    ensures Apply([s3, s2], Rename(Key("p", 3), Key("p", 2))) == [Slot(Key("p", 2), s3.item)]
  {
    var m := [s3, s2];
    var t2 := Slot(Key("p", 2), s3.item);
    assert m[..1] == [s3];
    KeysSingle(s3);
    KeysLast(m);
    assert Get(m, s3.key) == Some(s3.item);
    assert Put(m, Key("p", 2), s3.item) == [s3, t2];
    assert [s3, t2][..1] == [s3] && [s3][..0] == [];
    assert Without([s3], {Key("p", 3)}) == [];
  }

  lemma SecondRename(t2: Slot)
    requires t2.key == Key("p", 2)
    ensures Apply([t2], Rename(Key("p", 2), Key("p", 1))) == [Slot(Key("p", 1), t2.item)]
  {
    var t1 := Slot(Key("p", 1), t2.item);
    KeysSingle(t2);
    assert [t2][..0] == [];
    assert Get([t2], t2.key) == Some(t2.item);
    assert Put([t2], Key("p", 1), t2.item) == [t2, t1];
    assert [t2, t1][..1] == [t2];
    assert Without([t2], {Key("p", 2)}) == [];
  }

  /** The renaming loop relies on the ascending order: were picture `p`'s keys `p::3` and
      `p::2` in the other order, deleting `p::1` would leave only `p::1`, holding the item of
      `p::3`, and the item of `p::2` would be lost. */
  lemma DescendingOrderOverwrites(a: ImageItem, b: ImageItem)
    ensures var m := [Slot(Key("p", 3), a), Slot(Key("p", 2), b)];
            && !Ordered(m) && Get(m, Key("p", 2)) == Some(b)
            && Reindexed(m, "p", 1) == [Slot(Key("p", 1), a)]
  {
    var s3 := Slot(Key("p", 3), a);
    var s2 := Slot(Key("p", 2), b);
    var m := [s3, s2];
    assert !Precedes(m[0], m[1]);
    KeysSingle(s3);
    KeysLast(m);
    WithoutNothing(m, {Key("p", 1)});
    DescendingRenames(s3, s2);
    FirstRename(s3, s2);
    SecondRename(Slot(Key("p", 2), a));
    var r1 := Rename(Key("p", 3), Key("p", 2));
    var r2 := Rename(Key("p", 2), Key("p", 1));
    assert Delete(m, Key("p", 1)) == m;
    assert Reindexed(m, "p", 1) == ApplyAll(m, [r1, r2]);
    ApplyAllPair(m, r1, r2);
  }

  lemma ApplyAllPair(m: seq<Slot>, r1: Rename, r2: Rename)
    ensures ApplyAll(m, [r1, r2]) == Apply(Apply(m, r1), r2)
  {
    var rs := [r1, r2];
    assert rs[0] == r1 && rs[1..] == [r2];
    assert ApplyAll(m, rs) == ApplyAll(Apply(m, r1), [r2]);
    assert [r2][0] == r2 && [r2][1..] == [];
    assert ApplyAll(Apply(m, r1), [r2]) == ApplyAll(Apply(Apply(m, r1), r2), []);
  }
}
