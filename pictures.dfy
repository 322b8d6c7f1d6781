/** The gallery page `src/app/pictures/page.tsx`: the picture list being edited, the list as
    last saved, the files waiting to be pushed (`imageItems`, see `ImageMap`), and the
    handlers that change them. The clock and the random id are given to the upload handler;
    `pushPictures` is given by its outcome. */
module Pictures {
  import opened Wrappers
  import opened Text
  import opened ImageMap

  /** A gallery entry: one `image`, a group of `images`, or (in the initial list) both. */
  datatype Picture = Picture(id: string, uploadedAt: string, description: Option<string>,
                             image: Option<string>, images: Option<seq<string>>)

  /** The second argument of `handleDeleteSingleImage`: `'single'` or an index into `images`. */
  datatype Target = Single | At(index: nat)

  datatype Toast = Success(text: string) | Failure(text: string)

  const ChooseOne := "请至少选择一张图片"
  const Saved := "保存成功！"
  const SaveFailed := "保存失败: "
  const UnknownError := "未知错误"

  /** The number of entries in `images`; none when it is absent. */
  function ImageCount(p: Picture): nat {
    if p.images.Some? then |p.images.value| else 0
  }

  /** The URL an upload stores for an item: the link itself, or the file's preview URL. */
  function DisplayUrl(item: ImageItem): string {
    match item
    case UrlItem(url) => url
    case FileItem(previewUrl, _) => previewUrl
  }

  /** The picture `handleUploadSubmit` appends: the given id and time, and the items' URLs in
      their order (the description is the subject of `NewPictureDescription`). */
  function NewPicture(id: string, now: string, description: string, items: seq<ImageItem>): (p: Picture)
    ensures p.id == id && p.uploadedAt == now && p.image.None? && p.images.Some?
    ensures |p.images.value| == |items|
    ensures forall k :: 0 <= k < |items| ==> p.images.value[k] == DisplayUrl(items[k])
  {
    var desc := Trim(description);
    Picture(id, now, if desc == [] then None else Some(desc), None,
            Some(seq(|items|, k requires 0 <= k < |items| => DisplayUrl(items[k]))))
  }

  /** `description.trim() || undefined`: the new picture's description is the trimmed text,
      absent exactly when the text is blank. */
  lemma NewPictureDescription(id: string, now: string, description: string, items: seq<ImageItem>)
    ensures NewPicture(id, now, description, items).description.None? <==> AllWhitespace(description)
    ensures NewPicture(id, now, description, items).description.Some? ==>
              NewPicture(id, now, description, items).description.value == Trim(description)
  {
  }

  /** `images.filter((_, idx) => idx !== i)`: exactly the entry at `i` goes, the rest keep
      their order; an index past the end removes nothing. */
  function RemoveAt(images: seq<string>, i: nat): (r: seq<string>)
    ensures i < |images| ==> |r| == |images| - 1
    ensures i < |images| ==> forall k :: 0 <= k < |r| ==> r[k] == images[if k < i then k else k + 1]
    ensures i >= |images| ==> r == images
  {
    if i < |images| then images[..i] + images[i + 1..] else images
  }

  /** What the `.map` callback makes of the picture being deleted from (`None` for the
      `null` the `.filter` then drops). */
  function Shrunk(p: Picture, t: Target): (r: Option<Picture>)
    ensures t.Single? ==> r.None?
    ensures t.At? && ImageCount(p) == 0 ==> r == Some(p)
    ensures t.At? && ImageCount(p) > 0 ==>
              var rest := RemoveAt(p.images.value, t.index);
              (rest == [] ==> r.None?) && (rest != [] ==> r == Some(p.(images := Some(rest))))
  {
    match t
    case Single => None
    case At(i) =>
      if p.images.Some? && |p.images.value| > 0 then
        var rest := RemoveAt(p.images.value, i);
        if rest == [] then None else Some(p.(images := Some(rest)))
      else Some(p)
  }

  function Replacement(p: Picture, t: Target): seq<Picture> {
    match Shrunk(p, t)
    case None => []
    case Some(q) => [q]
  }

  /** The picture list after `handleDeleteSingleImage(id, t)`. */
  function DeleteImage(ps: seq<Picture>, id: string, t: Target): seq<Picture> {
    if ps == [] then []
    else
      var last := ps[|ps| - 1];
      DeleteImage(ps[..|ps| - 1], id, t) + if last.id != id then [last] else Replacement(last, t)
  }

  /** `prev.filter(p => p.id !== id)`: what `handleDeleteGroup` leaves. */
  function RemovePicture(ps: seq<Picture>, id: string): (r: seq<Picture>)
    ensures forall p :: p in r <==> p in ps && p.id != id
  {
    if ps == [] then []
    else
      var last := ps[|ps| - 1];
      assert ps == ps[..|ps| - 1] + [last];
      RemovePicture(ps[..|ps| - 1], id) + if last.id != id then [last] else []
  }

  /** No picture with that id: nothing changes. */
  lemma {:induction false} DeleteImageAbsent(ps: seq<Picture>, id: string, t: Target)
    requires forall y :: 0 <= y < |ps| ==> ps[y].id != id
    ensures DeleteImage(ps, id, t) == ps
  {
    if ps != [] {
      DeleteImageAbsent(ps[..|ps| - 1], id, t);
      assert ps == ps[..|ps| - 1] + [ps[|ps| - 1]];
    }
  }

  /** With the id at position `x` only, deleting touches that picture alone: it is replaced
      by what `Shrunk` makes of it, and every other picture stays, in order. */
  lemma {:induction false} DeleteImageAt(ps: seq<Picture>, id: string, t: Target, x: nat)
    requires x < |ps| && ps[x].id == id
    requires forall y :: 0 <= y < |ps| && y != x ==> ps[y].id != id
    ensures DeleteImage(ps, id, t) == ps[..x] + Replacement(ps[x], t) + ps[x + 1..]
  {
    var init := ps[..|ps| - 1];
    var last := ps[|ps| - 1];
    if x == |ps| - 1 {
      DeleteImageAbsent(init, id, t);
      assert ps[..x] == init && ps[x + 1..] == [];
    } else {
      DeleteImageAt(init, id, t, x);
      assert init[..x] == ps[..x];
      assert init[x + 1..] + [last] == ps[x + 1..];
    }
  }

  /** Deleting `'single'` is deleting the whole group. */
  lemma {:induction false} SingleRemovesPicture(ps: seq<Picture>, id: string)
    ensures DeleteImage(ps, id, Single) == RemovePicture(ps, id)
  {
    if ps != [] {
      SingleRemovesPicture(ps[..|ps| - 1], id);
    }
  }

  /** Every picture with another id survives, and so does what `Shrunk` keeps of one with
      this id. */
  lemma {:induction false} DeleteImageKeeps(ps: seq<Picture>, id: string, t: Target, p: Picture)
    requires p in ps
    ensures p.id != id ==> p in DeleteImage(ps, id, t)
    ensures p.id == id && Shrunk(p, t).Some? ==> Shrunk(p, t).value in DeleteImage(ps, id, t)
  {
    var init := ps[..|ps| - 1];
    if p != ps[|ps| - 1] {
      assert ps == init + [ps[|ps| - 1]];
      DeleteImageKeeps(init, id, t, p);
    }
  }

  // ----- The page invariant -----

  /** Picture `k.pictureId` exists and has an image at `k.index`. */
  ghost predicate HasSlot(ps: seq<Picture>, k: Key) {
    exists p :: p in ps && p.id == k.pictureId && k.index < ImageCount(p)
  }

  /** Every pending file belongs to an image slot of a listed picture. */
  ghost predicate Backed(ps: seq<Picture>, m: seq<Slot>) {
    forall k :: k in Keys(m) ==> HasSlot(ps, k)
  }

  /** A fresh picture id has no pending files. */
  lemma FreshHasNoKeys(ps: seq<Picture>, m: seq<Slot>, id: string)
    requires Backed(ps, m) && forall p :: p in ps ==> p.id != id
    ensures forall k :: k in Keys(m) ==> k.pictureId != id
  {
  }

  lemma FileSlotKeys(id: string, items: seq<ImageItem>, n: nat, k: Key)
    requires n <= |items| && k in Keys(FileSlots(id, items, n))
    ensures k.pictureId == id && k.index < n
  {
  }

  lemma UploadBacked(ps: seq<Picture>, m: seq<Slot>, id: string, now: string, description: string, items: seq<ImageItem>)
    requires Backed(ps, m)
    ensures Backed(ps + [NewPicture(id, now, description, items)], m + FileSlots(id, items, |items|))
  {
    var ps' := ps + [NewPicture(id, now, description, items)];
    KeysAppend(m, FileSlots(id, items, |items|));
    forall k | k in Keys(m + FileSlots(id, items, |items|)) ensures HasSlot(ps', k) {
      if k in Keys(m) {
        var p :| p in ps && p.id == k.pictureId && k.index < ImageCount(p);
        assert p in ps';
      } else {
        FileSlotKeys(id, items, |items|, k);
        assert NewPicture(id, now, description, items) in ps';
      }
    }
  }

  /** An upload under a fresh id keeps the page's invariant. */
  lemma UploadKeepsValid(ps: seq<Picture>, m: seq<Slot>, id: string, now: string, description: string, items: seq<ImageItem>)
    requires Ordered(m) && Backed(ps, m) && forall p :: p in ps ==> p.id != id
    ensures Ordered(m + FileSlots(id, items, |items|))
    ensures Backed(ps + [NewPicture(id, now, description, items)], m + FileSlots(id, items, |items|))
  {
    FreshHasNoKeys(ps, m, id);
    UploadOrdered(m, id, items);
    UploadBacked(ps, m, id, now, description, items);
  }

  lemma DropBacked(ps: seq<Picture>, m: seq<Slot>, id: string)
    requires Backed(ps, m)
    ensures Backed(DeleteImage(ps, id, Single), DropPicture(m, id))
  {
    forall k | k in Keys(DropPicture(m, id)) ensures HasSlot(DeleteImage(ps, id, Single), k) {
      DropPictureLookup(m, id, k);
      var p :| p in ps && p.id == k.pictureId && k.index < ImageCount(p);
      DeleteImageKeeps(ps, id, Single, p);
    }
  }

  /** A slot of the picture that loses image `i` survives it: below `i` as it was, from `i`
      on as the slot one higher was. */
  lemma ShrunkKeepsSlot(p: Picture, i: nat, x: nat)
    requires (x < i && x < ImageCount(p)) || (x >= i && x + 1 < ImageCount(p))
    ensures Shrunk(p, At(i)).Some? && x < ImageCount(Shrunk(p, At(i)).value)
  {
  }

  lemma ReindexBacked(ps: seq<Picture>, m: seq<Slot>, id: string, i: nat)
    requires Ordered(m) && Backed(ps, m)
    ensures Backed(DeleteImage(ps, id, At(i)), Reindexed(m, id, i))
  {
    var r := Reindexed(m, id, i);
    forall k | k in Keys(r) ensures HasSlot(DeleteImage(ps, id, At(i)), k) {
      if k.pictureId != id || k.index < i {
        ReindexedKeepsOthers(m, id, i, k);
        var p :| p in ps && p.id == k.pictureId && k.index < ImageCount(p);
        DeleteImageKeeps(ps, id, At(i), p);
        if p.id == id {
          ShrunkKeepsSlot(p, i, k.index);
        }
      } else {
        ReindexedMovesDown(m, id, i, k.index);
        var k1 := Key(id, k.index + 1);
        var p :| p in ps && p.id == id && k1.index < ImageCount(p);
        DeleteImageKeeps(ps, id, At(i), p);
        ShrunkKeepsSlot(p, i, k.index);
      }
    }
  }

  /** The page's state. */
  class PicturesPage {
    var pictures: seq<Picture>
    var originalPictures: seq<Picture>
    var imageItems: seq<Slot>
    var isEditMode: bool
    var isSaving: bool
    var isUploadDialogOpen: bool

    /** The pending files are in per-picture ascending order and each belongs to an image
        slot of a listed picture. */
    ghost predicate Valid()
      reads this
    {
      Ordered(imageItems) && Backed(pictures, imageItems)
    }

    /** Both lists start as the initial list, with no pending files. */
    constructor(initial: seq<Picture>)
      ensures pictures == initial && originalPictures == initial && imageItems == []
      ensures !isEditMode && !isSaving && !isUploadDialogOpen
      ensures Valid()
    {
      pictures := initial;
      originalPictures := initial;
      imageItems := [];
      isEditMode := false;
      isSaving := false;
      isUploadDialogOpen := false;
    }

    /** `handleUploadSubmit({ images, description })` with `id` the generated
        `<Date.now()>-<hex>` id, which names no listed picture, and `now` the time. No
        items: an error toast and nothing else. Otherwise one picture is appended and a
        pending file is recorded under `id::k` for each file item at position `k`. */
    method HandleUploadSubmit(items: seq<ImageItem>, description: string, id: string, now: string)
      returns (error: Option<string>)
      requires Valid() && forall p :: p in pictures ==> p.id != id
      modifies this
      ensures Valid()
      ensures items == [] ==>
                error == Some(ChooseOne) && pictures == old(pictures) && imageItems == old(imageItems)
                && isUploadDialogOpen == old(isUploadDialogOpen)
      ensures items != [] ==>
                && error.None? && !isUploadDialogOpen
                && pictures == old(pictures) + [NewPicture(id, now, description, items)]
                && imageItems == old(imageItems) + FileSlots(id, items, |items|)
      ensures originalPictures == old(originalPictures) && isEditMode == old(isEditMode) && isSaving == old(isSaving)
    {
      if items == [] {
        return Some(ChooseOne);
      }
      var added, next := Upload(pictures, imageItems, id, now, description, items);
      pictures := added;
      imageItems := next;
      isUploadDialogOpen := false;
      error := None;
    }

    /** `handleDeleteSingleImage(pictureId, target)`. */
    method HandleDeleteSingleImage(pictureId: string, target: Target)
      requires Valid()
      modifies this
      ensures Valid()
      ensures pictures == DeleteImage(old(pictures), pictureId, target)
      ensures target.Single? ==> imageItems == DropPicture(old(imageItems), pictureId)
      ensures target.At? ==> imageItems == Reindexed(old(imageItems), pictureId, target.index)
      ensures originalPictures == old(originalPictures) && isEditMode == old(isEditMode)
      ensures isSaving == old(isSaving) && isUploadDialogOpen == old(isUploadDialogOpen)
    {
      var next := imageItems;
      match target {
        case Single =>
          DropBacked(pictures, imageItems, pictureId);
          DropPictureOrdered(imageItems, pictureId);
          next := DeletePictureKeys(next, pictureId);
        case At(i) =>
          ReindexBacked(pictures, imageItems, pictureId, i);
          ReindexedOrdered(imageItems, pictureId, i);
          next := Delete(next, Key(pictureId, i));
          var keysToUpdate := CollectRenames(next, pictureId, i);
          next := RenameKeys(next, keysToUpdate);
      }
      pictures := DeleteImage(pictures, pictureId, target);
      imageItems := next;
    }

    /** `handleDeleteGroup(picture)`, `confirmed` being the answer to its `confirm`. */
    method HandleDeleteGroup(picture: Picture, confirmed: bool)
      requires Valid()
      modifies this
      ensures Valid()
      ensures !confirmed ==> pictures == old(pictures) && imageItems == old(imageItems)
      ensures confirmed ==> pictures == RemovePicture(old(pictures), picture.id)
                            && imageItems == DropPicture(old(imageItems), picture.id)
      ensures originalPictures == old(originalPictures) && isEditMode == old(isEditMode)
      ensures isSaving == old(isSaving) && isUploadDialogOpen == old(isUploadDialogOpen)
    {
      if !confirmed {
        return;
      }
      DropBacked(pictures, imageItems, picture.id);
      DropPictureOrdered(imageItems, picture.id);
      SingleRemovesPicture(pictures, picture.id);
      pictures := RemovePicture(pictures, picture.id);
      imageItems := DeletePictureKeys(imageItems, picture.id);
    }

    /** `handleSave()`, `pushError` being `None` when `pushPictures` resolves and the
        error's message otherwise. Success makes the edited list the saved one, forgets the
        pending files and leaves edit mode; failure changes nothing but the toast. Either
        way `isSaving` ends lowered. */
    method HandleSave(pushError: Option<string>) returns (toast: Toast)
      requires Valid()
      modifies this
      ensures Valid() && !isSaving
      ensures pushError.None? ==>
                originalPictures == old(pictures) && imageItems == [] && !isEditMode && toast == Success(Saved)
      ensures pushError.Some? ==>
                && originalPictures == old(originalPictures) && imageItems == old(imageItems)
                && isEditMode == old(isEditMode)
                && toast == Failure(SaveFailed + if pushError.value != [] then pushError.value else UnknownError)
      ensures pictures == old(pictures) && isUploadDialogOpen == old(isUploadDialogOpen)
    {
      isSaving := true;
      match pushError {
        case None =>
          originalPictures := pictures;
          imageItems := [];
          isEditMode := false;
          toast := Success(Saved);
        case Some(message) =>
          toast := Failure(SaveFailed + if message != [] then message else UnknownError);
      }
      isSaving := false;
    }

    /** `handleCancel()`: back to the saved list, with no pending files, out of edit mode. */
    method HandleCancel()
      requires Valid()
      modifies this
      ensures Valid()
      ensures pictures == old(originalPictures) && originalPictures == old(originalPictures)
      ensures imageItems == [] && !isEditMode
      ensures isSaving == old(isSaving) && isUploadDialogOpen == old(isUploadDialogOpen)
    {
      pictures := originalPictures;
      imageItems := [];
      isEditMode := false;
    }
  }

  // ----- The loops over `imageItems` -----

  /** The loop deleting every key of picture `id`. It runs over the live map; deleting the
      entry just visited does not disturb a `Map` iteration, so it visits the keys of `m` in
      order. */
  method DeletePictureKeys(m: seq<Slot>, id: string) returns (next: seq<Slot>)
    ensures next == DropPicture(m, id)
  {
    next := m;
    assert PictureKeys(m, id, 0) == {};
    WithoutNothing(m, {});
    for j := 0 to |m|
      invariant next == Without(m, PictureKeys(m, id, j))
    {
      PictureKeysNext(m, id, j);
      if m[j].key.pictureId == id {
        WithoutWithout(m, PictureKeys(m, id, j), {m[j].key});
        assert PictureKeys(m, id, j + 1) == PictureKeys(m, id, j) + {m[j].key};
        next := Delete(next, m[j].key);
      } else {
        assert PictureKeys(m, id, j + 1) == PictureKeys(m, id, j);
      }
    }
  }

  /** The two new lists of an upload under a fresh id. */
  method Upload(ps: seq<Picture>, m: seq<Slot>, id: string, now: string, description: string, items: seq<ImageItem>)
    returns (added: seq<Picture>, next: seq<Slot>)
    requires Ordered(m) && Backed(ps, m) && forall p :: p in ps ==> p.id != id
    ensures added == ps + [NewPicture(id, now, description, items)]
    ensures next == m + FileSlots(id, items, |items|)
    ensures Ordered(next) && Backed(added, next)
  {
    FreshHasNoKeys(ps, m, id);
    next := AddUploads(m, id, items);
    added := ps + [NewPicture(id, now, description, items)];
    UploadKeepsValid(ps, m, id, now, description, items);
  }

  /** The `images.forEach` loop of an upload: `id::k` set to each file item at position `k`.
      Under a fresh id every key is new, so each `set` appends. */
  method AddUploads(m: seq<Slot>, id: string, items: seq<ImageItem>) returns (next: seq<Slot>)
    requires forall k :: k in Keys(m) ==> k.pictureId != id
    ensures next == m + FileSlots(id, items, |items|)
  {
    next := m;
    for index := 0 to |items|
      invariant next == m + FileSlots(id, items, index)
    {
      if items[index].FileItem? {
        KeysAppend(m, FileSlots(id, items, index));
        if Key(id, index) in Keys(FileSlots(id, items, index)) {
          FileSlotKeys(id, items, index, Key(id, index));
        }
        next := Put(next, Key(id, index), items[index]);
      }
    }
  }

  /** The loop filling `keysToUpdate`. */
  method CollectRenames(m: seq<Slot>, id: string, i: nat) returns (keysToUpdate: seq<Rename>)
    ensures keysToUpdate == Renames(m, id, i)
  {
    keysToUpdate := [];
    for j := 0 to |m|
      invariant keysToUpdate == Renames(m[..j], id, i)
    {
      var key := m[j].key;
      assert m[..j + 1][..j] == m[..j];
      if key.pictureId == id && key.index > i {
        keysToUpdate := keysToUpdate + [Rename(key, Key(id, key.index - 1))];
      }
    }
    assert m[..|m|] == m;
  }

  /** The loop applying `keysToUpdate` in order. */
  method RenameKeys(m: seq<Slot>, keysToUpdate: seq<Rename>) returns (next: seq<Slot>)
    ensures next == ApplyAll(m, keysToUpdate)
  {
    next := m;
    assert keysToUpdate[0..] == keysToUpdate;
    for j := 0 to |keysToUpdate|
      invariant ApplyAll(next, keysToUpdate[j..]) == ApplyAll(m, keysToUpdate)
    {
      var r := keysToUpdate[j];
      assert keysToUpdate[j..][1..] == keysToUpdate[j + 1..];
      var value := Get(next, r.oldKey);
      if value.Some? {
        next := Put(next, r.newKey, value.value);
        next := Delete(next, r.oldKey);
      }
    }
  }
}
