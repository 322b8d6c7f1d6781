/** The tag list editor of `src/app/write/components/ui/tag-input.tsx`: the list itself is
    owned by the form (`onChange` replaces it), the text box is the editor's own state. */
module TagInput {
  import opened Text

  /** `handleAddTag` on the list: the trimmed input is appended unless it is blank or
      already present. */
  function AddTag(tags: seq<string>, input: string): (r: seq<string>)
    ensures Trim(input) == [] || Trim(input) in tags ==> r == tags
    ensures Trim(input) != [] && Trim(input) !in tags ==> |r| == |tags| + 1 && r[..|tags|] == tags && r[|tags|] == Trim(input)
  {
    var tag := Trim(input);
    if tag != [] && tag !in tags then tags + [tag] else tags
  }

  /** `tags.filter((_, i) => i !== index)`. */
  function RemoveTag(tags: seq<string>, index: int): (r: seq<string>)
    ensures 0 <= index < |tags| ==> r == tags[..index] + tags[index + 1..]
    ensures index < 0 || index >= |tags| ==> r == tags
  {
    if tags == [] then []
    else
      var rest := RemoveTag(tags[1..], index - 1);
      assert 0 < index < |tags| ==> tags[1..][..index - 1] == tags[1..index] && tags[1..][index..] == tags[index + 1..];
      assert 0 < index < |tags| ==> tags[..index] == [tags[0]] + tags[1..index];
      (if index == 0 then [] else [tags[0]]) + rest
  }

  predicate Distinct(tags: seq<string>) {
    forall i, j :: 0 <= i < j < |tags| ==> tags[i] != tags[j]
  }

  /** A list without duplicates stays so after any add. */
  lemma AddKeepsDistinct(tags: seq<string>, input: string)
    requires Distinct(tags)
    ensures Distinct(AddTag(tags, input))
  {
    var r := AddTag(tags, input);
    if r != tags {
      forall i, j | 0 <= i < j < |r|
        ensures r[i] != r[j]
      {
        if j == |tags| {
          assert r[i] == tags[i];
        } else {
          assert r[i] == tags[i] && r[j] == tags[j];
        }
      }
    }
  }

  /** Removing keeps a list without duplicates so. */
  lemma RemoveKeepsDistinct(tags: seq<string>, index: int)
    requires Distinct(tags) && 0 <= index < |tags|
    ensures Distinct(RemoveTag(tags, index))
  {
    var r := RemoveTag(tags, index);
    RemovePositions(tags, index);
    forall i, j | 0 <= i < j < |r|
      ensures r[i] != r[j]
    {
      var i' := if i < index then i else i + 1;
      var j' := if j < index then j else j + 1;
      assert r[i] == tags[i'] && r[j] == tags[j'];
    }
  }

  /** In a list without duplicates, the removed tag is gone afterwards. */
  lemma RemoveDropsTag(tags: seq<string>, index: int)
    requires Distinct(tags) && 0 <= index < |tags|
    ensures tags[index] !in RemoveTag(tags, index)
  {
    var r := RemoveTag(tags, index);
    RemovePositions(tags, index);
    forall k | 0 <= k < |r|
      ensures r[k] != tags[index]
    {
      if k < index {
        assert r[k] == tags[k] && tags[k] != tags[index];
      } else {
        assert r[k] == tags[k + 1] && tags[index] != tags[k + 1];
      }
    }
  }

  /** Every other tag stays in the list. */
  lemma RemoveKeepsOthers(tags: seq<string>, index: int, k: int)
    requires 0 <= index < |tags| && 0 <= k < |tags| && k != index
    ensures tags[k] in RemoveTag(tags, index)
  {
    RemovePositions(tags, index);
    var p := if k < index then k else k - 1;
    assert RemoveTag(tags, index)[p] == tags[k];
  }

  /** Where each remaining tag came from. */
  lemma RemovePositions(tags: seq<string>, index: int)
    requires 0 <= index < |tags|
    ensures |RemoveTag(tags, index)| == |tags| - 1
    ensures forall k :: 0 <= k < |tags| - 1 ==> RemoveTag(tags, index)[k] == tags[if k < index then k else k + 1]
  {
    var r := RemoveTag(tags, index);
    assert r == tags[..index] + tags[index + 1..];
  }

  /** The editor: the form's tag list and the text box. */
  class TagEditor {
    var tags: seq<string>
    var tagInput: string

    constructor(tags: seq<string>)
      ensures this.tags == tags && tagInput == []
    {
      this.tags := tags;
      tagInput := [];
    }

    /** The text box's `onChange`. */
    method SetInput(value: string)
      modifies this
      ensures tagInput == value && tags == old(tags)
    {
      tagInput := value;
    }

    /** `handleAddTag` (Enter in the text box): on a successful add the list grows and the
        text box is cleared; otherwise nothing changes. */
    method HandleAddTag()
      modifies this
      ensures tags == AddTag(old(tags), old(tagInput))
      ensures tagInput == if tags == old(tags) then old(tagInput) else []
    {
      var tag := Trim(tagInput);
      if tag != [] && tag !in tags {
        tags := tags + [tag];
        tagInput := [];
      }
    }

    /** `handleRemoveTag(index)`: the text box is untouched. */
    method HandleRemoveTag(index: int)
      modifies this
      ensures tags == RemoveTag(old(tags), index) && tagInput == old(tagInput)
    {
      tags := RemoveTag(tags, index);
    }
  }
}
