/** The gallery grid of `src/app/pictures/components/grid-layout.tsx`: `buildImageList`
    flattens the picture list into one card per image, and `GridLayout` sorts the cards
    newest first and keys each card by its picture id and image index. */
module Grid {
  import opened Wrappers
  import opened Text
  import opened Sorting
  import opened Pictures

  /** One card: its URL, the picture it comes from, which of that picture's images it shows,
      the picture's description and upload time, and the picture's position in the list. */
  datatype GridItem = GridItem(url: string, pictureId: string, imageIndex: Target,
                               description: Option<string>, uploadedAt: string, groupIndex: nat)

  /** `if (picture.image)`: set and not the empty string. */
  predicate HasImage(p: Picture) {
    p.image.Some? && p.image.value != []
  }

  /** The card for the picture's own `image`, when it has one. */
  function SingleItems(p: Picture, index: nat): seq<GridItem> {
    if HasImage(p) then [GridItem(p.image.value, p.id, Single, p.description, p.uploadedAt, index)] else []
  }

  /** `picture.images.map(...)`: a card per entry of `images`, carrying the entry's index. */
  function IndexedItems(p: Picture, index: nat): seq<GridItem> {
    if p.images.Some? then
      seq(|p.images.value|, k requires 0 <= k < |p.images.value| =>
        GridItem(p.images.value[k], p.id, At(k), p.description, p.uploadedAt, index))
    else []
  }

  /** The cards of the whole list: those of every picture, in list order. */
  function ImageList(ps: seq<Picture>): seq<GridItem>
    decreases |ps|
  {
    if ps == [] then []
    else
      var n := |ps| - 1;
      ImageList(ps[..n]) + SingleItems(ps[n], n) + IndexedItems(ps[n], n)
  }

  /** The number of cards a list gives: one per set `image` and one per entry of `images`. */
  function CardCount(ps: seq<Picture>): nat
    decreases |ps|
  {
    if ps == [] then 0
    else
      var n := |ps| - 1;
      CardCount(ps[..n]) + (if HasImage(ps[n]) then 1 else 0) + ImageCount(ps[n])
  }

  lemma ImageListNext(ps: seq<Picture>, index: nat)
    requires index < |ps|
    ensures ImageList(ps[..index + 1]) == ImageList(ps[..index]) + SingleItems(ps[index], index) + IndexedItems(ps[index], index)
  {
    assert ps[..index + 1][..index] == ps[..index];
    assert ps[..index + 1][index] == ps[index];
  }

  /** `buildImageList`: the `for ... of pictures.entries()` loop pushing the single card (if
      any) and then the indexed cards of each picture. */
  method BuildImageList(ps: seq<Picture>) returns (result: seq<GridItem>)
    ensures result == ImageList(ps)
  {
    result := [];
    for index := 0 to |ps|
      invariant result == ImageList(ps[..index])
    {
      var picture := ps[index];
      ImageListNext(ps, index);
      ghost var before := result;
      if picture.image.Some? && picture.image.value != [] {
        result := result + [GridItem(picture.image.value, picture.id, Single, picture.description, picture.uploadedAt, index)];
      }
      assert result == before + SingleItems(picture, index);
      if picture.images.Some? && |picture.images.value| > 0 {
        result := result + IndexedItems(picture, index);
      } else {
        assert IndexedItems(picture, index) == [];
      }
    }
    assert ps[..|ps|] == ps;
  }

  // ----- What the cards say about the pictures -----

  /** `it` is a faithful card of the list `ps`: it names an existing position, copies the
      picture's id, description and upload time, and shows the image its index selects. */
  predicate Describes(ps: seq<Picture>, it: GridItem) {
    && it.groupIndex < |ps|
    && it.pictureId == ps[it.groupIndex].id
    && it.description == ps[it.groupIndex].description
    && it.uploadedAt == ps[it.groupIndex].uploadedAt
    && match it.imageIndex
       case Single => HasImage(ps[it.groupIndex]) && it.url == ps[it.groupIndex].image.value
       case At(k) => k < ImageCount(ps[it.groupIndex]) && it.url == ps[it.groupIndex].images.value[k]
  }

  /** Within a picture the single card stands first, then the indexed cards by index. */
  function Rank(t: Target): nat {
    match t
    case Single => 0
    case At(k) => k + 1
  }

  /** `a` is listed strictly ahead of `b`: an earlier picture, or the same picture and an
      earlier image of it. */
  predicate Ahead(a: GridItem, b: GridItem) {
    a.groupIndex < b.groupIndex || (a.groupIndex == b.groupIndex && Rank(a.imageIndex) < Rank(b.imageIndex))
  }

  /** The card for image `t` of picture `g` is among `r`. */
  predicate Listed(r: seq<GridItem>, g: nat, t: Target) {
    exists x :: 0 <= x < |r| && r[x].groupIndex == g && r[x].imageIndex == t
  }

  /** A card of a prefix of the list is a card of the list. */
  lemma DescribesPrefix(ps: seq<Picture>, n: nat, it: GridItem)
    requires n <= |ps| && Describes(ps[..n], it)
    ensures Describes(ps, it)
  {
    assert ps[..n][it.groupIndex] == ps[it.groupIndex];
  }

  lemma GroupDescribes(ps: seq<Picture>, n: nat)
    requires n < |ps|
    ensures forall x :: 0 <= x < |SingleItems(ps[n], n) + IndexedItems(ps[n], n)| ==>
              var it := (SingleItems(ps[n], n) + IndexedItems(ps[n], n))[x];
              Describes(ps, it) && it.groupIndex == n
  {
  }

  /** Every card describes the list faithfully. */
  lemma {:induction false} ImageListDescribes(ps: seq<Picture>)
    ensures forall x :: 0 <= x < |ImageList(ps)| ==> Describes(ps, ImageList(ps)[x])
    decreases |ps|
  {
    if ps != [] {
      var n := |ps| - 1;
      var init := ImageList(ps[..n]);
      var group := SingleItems(ps[n], n) + IndexedItems(ps[n], n);
      ImageListDescribes(ps[..n]);
      GroupDescribes(ps, n);
      assert ImageList(ps) == init + group;
      forall x | 0 <= x < |ImageList(ps)|
        ensures Describes(ps, ImageList(ps)[x])
      {
        if x < |init| {
          DescribesPrefix(ps, n, init[x]);
        } else {
          assert ImageList(ps)[x] == group[x - |init|];
        }
      }
    }
  }

  /** There is one card per set `image` and per entry of `images`. */
  lemma {:induction false} ImageListLength(ps: seq<Picture>)
    ensures |ImageList(ps)| == CardCount(ps)
    decreases |ps|
  {
    if ps != [] {
      ImageListLength(ps[..|ps| - 1]);
    }
  }

  lemma GroupAscending(p: Picture, n: nat)
    ensures forall x, y :: 0 <= x < y < |SingleItems(p, n) + IndexedItems(p, n)| ==>
              Ahead((SingleItems(p, n) + IndexedItems(p, n))[x], (SingleItems(p, n) + IndexedItems(p, n))[y])
  {
  }

  /** The cards follow the pictures' order, and within a picture the single card comes
      first and the indexed cards ascend; so no card is listed twice. */
  lemma {:induction false} ImageListAscending(ps: seq<Picture>)
    ensures forall x, y :: 0 <= x < y < |ImageList(ps)| ==> Ahead(ImageList(ps)[x], ImageList(ps)[y])
    decreases |ps|
  {
    if ps != [] {
      var n := |ps| - 1;
      var init := ImageList(ps[..n]);
      var group := SingleItems(ps[n], n) + IndexedItems(ps[n], n);
      var r := ImageList(ps);
      ImageListAscending(ps[..n]);
      ImageListDescribes(ps[..n]);
      GroupDescribes(ps, n);
      GroupAscending(ps[n], n);
      assert r == init + group;
      forall x, y | 0 <= x < y < |r|
        ensures Ahead(r[x], r[y])
      {
        if y < |init| {
          assert r[x] == init[x] && r[y] == init[y];
        } else if x < |init| {
          assert r[x] == init[x] && r[y] == group[y - |init|];
        } else {
          assert r[x] == group[x - |init|] && r[y] == group[y - |init|];
        }
      }
    }
  }

  /** Every image of every picture has its card. */
  lemma {:induction false} ImageListComplete(ps: seq<Picture>)
    ensures forall g :: 0 <= g < |ps| && HasImage(ps[g]) ==> Listed(ImageList(ps), g, Single)
    ensures forall g, k :: 0 <= g < |ps| && 0 <= k < ImageCount(ps[g]) ==> Listed(ImageList(ps), g, At(k))
    decreases |ps|
  {
    if ps != [] {
      var n := |ps| - 1;
      var init := ImageList(ps[..n]);
      var single := SingleItems(ps[n], n);
      var indexed := IndexedItems(ps[n], n);
      var r := ImageList(ps);
      ImageListComplete(ps[..n]);
      assert r == init + single + indexed;
      forall g, t | Listed(init, g, t)
        ensures Listed(r, g, t)
      {
        var x :| 0 <= x < |init| && init[x].groupIndex == g && init[x].imageIndex == t;
        assert r[x] == init[x];
      }
      forall g | 0 <= g < |ps| && HasImage(ps[g])
        ensures Listed(r, g, Single)
      {
        if g == n {
          assert r[|init|] == single[0];
        } else {
          assert ps[..n][g] == ps[g];
        }
      }
      forall g, k | 0 <= g < |ps| && 0 <= k < ImageCount(ps[g])
        ensures Listed(r, g, At(k))
      {
        if g == n {
          assert r[|init| + |single| + k] == indexed[k];
        } else {
          assert ps[..n][g] == ps[g];
        }
      }
    }
  }

  // ----- The newest-first order -----

  /** The comparator's timestamp: `new Date(uploadedAt).getTime()`, read through `time`,
      and 0 for an empty `uploadedAt`. */
  function TimeOf(time: string -> int, it: GridItem): int {
    if it.uploadedAt == [] then 0 else time(it.uploadedAt)
  }

  /** `(a, b) => dateB - dateA`: `a` may stay ahead of `b` when it is at least as recent. */
  function NewestFirst(time: string -> int): (GridItem, GridItem) -> bool {
    (a: GridItem, b: GridItem) => TimeOf(time, a) >= TimeOf(time, b)
  }

  /** `imageList` of `GridLayout`: the built list sorted newest first. It holds exactly the
      built cards, and no card is older than one after it. */
  function DisplayOrder(ps: seq<Picture>, time: string -> int): (r: seq<GridItem>)
    ensures multiset(r) == multiset(ImageList(ps))
    ensures forall x, y :: 0 <= x < y < |r| ==> TimeOf(time, r[x]) >= TimeOf(time, r[y])
  {
    assert DescendingByInt(NewestFirst(time), it => TimeOf(time, it));
    DescendingByIntIsPreorder(NewestFirst(time), it => TimeOf(time, it));
    SortSorted(ImageList(ps), NewestFirst(time));
    Sort(ImageList(ps), NewestFirst(time))
  }

  // ----- The render key -----

  /** `${pictureId}-${imageIndex}` with the index spelt `single` or in decimal. */
  function IndexText(t: Target): string {
    match t
    case Single => "single"
    case At(k) => NatToString(k)
  }

  function RenderKey(it: GridItem): string {
    it.pictureId + "-" + IndexText(it.imageIndex)
  }

  lemma IndexTextNoDash(t: Target)
    ensures '-' !in IndexText(t)
  {
    if t.At? {
      assert forall i :: 0 <= i < |IndexText(t)| ==> IsDigit(IndexText(t)[i]);
    }
  }

  lemma DashAt(a: string, s: string)
    ensures (a + "-" + s)[|a|] == '-'
  {
  }

  /** Text after the last `-` determines both halves of the key. */
  lemma DashSplit(a: string, s: string, b: string, t: string)
    requires '-' !in s && '-' !in t
    requires a + "-" + s == b + "-" + t
    ensures a == b && s == t
  {
    var u := a + "-" + s;
    if |s| < |t| {
      DashAt(a, s);
      assert false;
    } else if |t| < |s| {
      DashAt(b, t);
      assert false;
    } else {
      assert a == u[..|a|] && b == u[..|b|];
      assert s == u[|a| + 1..] && t == u[|b| + 1..];
    }
  }

  /** Different decimal spellings, and `single`, name different images. */
  lemma IndexTextInjective(t1: Target, t2: Target)
    requires IndexText(t1) == IndexText(t2)
    ensures t1 == t2
  {
    if t1.At? && t2.At? {
      NatToStringValue(t1.index);
      NatToStringValue(t2.index);
    }
  }

  /** The key string is the pair (picture id, image index) written out: different pairs give
      different keys, even when ids themselves contain `-`. */
  lemma RenderKeyInjective(a: GridItem, b: GridItem)
    requires RenderKey(a) == RenderKey(b)
    ensures a.pictureId == b.pictureId && a.imageIndex == b.imageIndex
  {
    IndexTextNoDash(a.imageIndex);
    IndexTextNoDash(b.imageIndex);
    DashSplit(a.pictureId, IndexText(a.imageIndex), b.pictureId, IndexText(b.imageIndex));
    IndexTextInjective(a.imageIndex, b.imageIndex);
  }

  predicate DistinctIds(ps: seq<Picture>) {
    forall i, j :: 0 <= i < j < |ps| ==> ps[i].id != ps[j].id
  }

  /** Two cards of the list with the same key are the same card. */
  lemma SameKeySameCard(ps: seq<Picture>, x: nat, y: nat)
    requires DistinctIds(ps) && x < |ImageList(ps)| && y < |ImageList(ps)|
    requires RenderKey(ImageList(ps)[x]) == RenderKey(ImageList(ps)[y])
    ensures x == y
  {
    var r := ImageList(ps);
    ImageListDescribes(ps);
    ImageListAscending(ps);
    RenderKeyInjective(r[x], r[y]);
  }

  /** With distinct picture ids, the built list lists no card twice. */
  lemma {:induction false} DistinctCards(s: seq<GridItem>)
    requires forall x, y :: 0 <= x < y < |s| ==> s[x] != s[y]
    ensures NoDuplicates(s)
    decreases |s|
  {
    if s != [] {
      var n := |s| - 1;
      DistinctCards(s[..n]);
      assert s == s[..n] + [s[n]];
      assert s[n] !in multiset(s[..n]);
    }
  }

  /** When picture ids are distinct, no two cards of the sorted grid share a render key. */
  lemma RenderKeysUnique(ps: seq<Picture>, time: string -> int)
    requires DistinctIds(ps)
    ensures forall x, y :: 0 <= x < y < |DisplayOrder(ps, time)| ==>
              RenderKey(DisplayOrder(ps, time)[x]) != RenderKey(DisplayOrder(ps, time)[y])
  {
    var r := ImageList(ps);
    var d := DisplayOrder(ps, time);
    forall x, y | 0 <= x < y < |r|
      ensures r[x] != r[y]
    {
      if r[x] == r[y] {
        SameKeySameCard(ps, x, y);
      }
    }
    DistinctCards(r);
    forall x, y | 0 <= x < y < |d|
      ensures RenderKey(d[x]) != RenderKey(d[y])
    {
      assert d[x] in multiset(r) && d[y] in multiset(r);
      var i :| 0 <= i < |r| && r[i] == d[x];
      var j :| 0 <= j < |r| && r[j] == d[y];
      if RenderKey(d[x]) == RenderKey(d[y]) {
        SameKeySameCard(ps, i, j);
        NoDuplicatesDistinct(d, x, y);
      }
    }
  }
}
