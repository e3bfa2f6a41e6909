/**
 * The metadata document: a map from image filename to its ordered list of
 * tags.  This module gives the effect of each handler on a document as a
 * function of the document it loaded, and proves what the handlers promise:
 * unknown names are ignored, other entries are never touched, tags are not
 * duplicated, adding is idempotent and removing undoes adding.
 */
module Metadata {
  type FileName = string
  type Tag = string
  type Document = map<FileName, seq<Tag>>

  /** No tag occurs twice in `tags`. */
  predicate Distinct(tags: seq<Tag>) {
    forall i, j :: 0 <= i < j < |tags| ==> tags[i] != tags[j]
  }

  /** No tag list of the document holds a duplicate. */
  predicate WellFormed(doc: Document) {
    forall f :: f in doc ==> Distinct(doc[f])
  }

  /** The tags the gallery shows for `f`: its list, or none when `f` is unknown. */
  function TagsOf(doc: Document, f: FileName): (r: seq<Tag>)
    ensures f in doc ==> r == doc[f]
    ensures f !in doc ==> r == []
  {
    if f in doc then doc[f] else []
  }

  /** The position of the first occurrence of `t` in `tags`. */
  function FirstIndex(tags: seq<Tag>, t: Tag): (i: nat)
    requires t in tags
    ensures i < |tags| && tags[i] == t
    ensures t !in tags[..i]
  {
    if tags[0] == t then 0
    else
      var i := 1 + FirstIndex(tags[1..], t);
      assert tags[..i] == [tags[0]] + tags[1..][..i - 1];
      i
  }

  /** `tags` without the first occurrence of `t` (a list's `remove`). */
  function RemoveFirst(tags: seq<Tag>, t: Tag): (r: seq<Tag>)
    requires t in tags
    ensures r == tags[..FirstIndex(tags, t)] + tags[FirstIndex(tags, t) + 1..]
  {
    if tags[0] == t then tags[1..]
    else
      var r := [tags[0]] + RemoveFirst(tags[1..], t);
      var i := FirstIndex(tags[1..], t);
      assert tags[..i + 1] == [tags[0]] + tags[1..][..i];
      assert tags[i + 2..] == tags[1..][i + 1..];
      r
  }

  /** The document after `add_tag(f, t)`. */
  function WithTag(doc: Document, f: FileName, t: Tag): (r: Document)
    ensures r.Keys == doc.Keys
    ensures forall g :: g in doc && g != f ==> r[g] == doc[g]
    ensures f in doc ==> t in r[f] && doc[f] <= r[f] && |r[f]| <= |doc[f]| + 1
    ensures f !in doc || t in doc[f] ==> r == doc
  {
    if f in doc && t !in doc[f] then doc[f := doc[f] + [t]] else doc
  }

  /** The document after `remove_tag(f, t)`. */
  function WithoutTag(doc: Document, f: FileName, t: Tag): (r: Document)
    ensures r.Keys == doc.Keys
    ensures forall g :: g in doc && g != f ==> r[g] == doc[g]
    ensures f !in doc || t !in doc[f] ==> r == doc
    ensures f in doc && t in doc[f] ==> |r[f]| == |doc[f]| - 1
  {
    if f in doc && t in doc[f] then
      doc[f := RemoveFirst(doc[f], t)]
    else doc
  }

  /** The document after an upload stored under `f`: its tags start over. */
  function WithEmptyEntry(doc: Document, f: FileName): (r: Document)
    ensures r.Keys == doc.Keys + {f}
    ensures r[f] == []
    ensures forall g :: g in doc && g != f ==> r[g] == doc[g]
  {
    doc[f := []]
  }

  /** Removing the first occurrence of `t` keeps every other tag, in order. */
  lemma RemoveFirstKeepsOthers(tags: seq<Tag>, t: Tag, k: nat)
    requires t in tags && k < |tags| - 1
    ensures var i := FirstIndex(tags, t);
      RemoveFirst(tags, t)[k] == if k < i then tags[k] else tags[k + 1]
  {
    var i := FirstIndex(tags, t);
    var front, back := tags[..i], tags[i + 1..];
    var r := RemoveFirst(tags, t);
    assert r == front + back;
    if k < i {
      assert r[k] == front[k] == tags[k];
    } else {
      assert r[k] == back[k - i] == tags[k + 1];
    }
  }

  /** `remove` takes away exactly one copy of the tag and keeps every other. */
  lemma RemoveFirstDropsOneCopy(tags: seq<Tag>, t: Tag)
    requires t in tags
    ensures multiset(RemoveFirst(tags, t)) == multiset(tags) - multiset{t}
  {
    var i := FirstIndex(tags, t);
    assert tags == tags[..i] + [t] + tags[i + 1..];
  }

  /** Removing an appended tag that was not there before gives back the list. */
  lemma {:induction false} RemoveFirstAfterAppend(tags: seq<Tag>, t: Tag)
    requires t !in tags
    ensures RemoveFirst(tags + [t], t) == tags
  {
    var s := tags + [t];
    var i := FirstIndex(s, t);
    assert s[..|tags|] == tags;
    assert i == |tags|;
  }

  /** In a list without duplicates the removed tag is gone afterwards. */
  lemma RemoveFirstFromDistinct(tags: seq<Tag>, t: Tag)
    requires t in tags && Distinct(tags)
    ensures t !in RemoveFirst(tags, t)
    ensures Distinct(RemoveFirst(tags, t))
  {
    var i := FirstIndex(tags, t);
    var r := RemoveFirst(tags, t);
    forall k | 0 <= k < |r|
      ensures r[k] != t
    {
      RemoveFirstKeepsOthers(tags, t, k);
    }
    forall k, l | 0 <= k < l < |r|
      ensures r[k] != r[l]
    {
      RemoveFirstKeepsOthers(tags, t, k);
      RemoveFirstKeepsOthers(tags, t, l);
    }
  }

  /** `add_tag` keeps every tag list free of duplicates. */
  lemma WithTagPreservesWellFormed(doc: Document, f: FileName, t: Tag)
    requires WellFormed(doc)
    ensures WellFormed(WithTag(doc, f, t))
  {
    if f in doc && t !in doc[f] {
      var s := doc[f] + [t];
      forall i, j | 0 <= i < j < |s|
        ensures s[i] != s[j]
      {
        if j == |s| - 1 {
          assert s[i] == doc[f][i];
        }
      }
    }
  }

  /** `remove_tag` keeps every tag list free of duplicates, and the tag is then gone. */
  lemma WithoutTagPreservesWellFormed(doc: Document, f: FileName, t: Tag)
    requires WellFormed(doc)
    ensures WellFormed(WithoutTag(doc, f, t))
    ensures f in doc ==> t !in WithoutTag(doc, f, t)[f]
  {
    if f in doc && t in doc[f] {
      RemoveFirstFromDistinct(doc[f], t);
    }
  }

  /** An upload keeps every tag list free of duplicates. */
  lemma WithEmptyEntryPreservesWellFormed(doc: Document, f: FileName)
    requires WellFormed(doc)
    ensures WellFormed(WithEmptyEntry(doc, f))
  {
  }

  /** Adding the same tag twice is the same as adding it once. */
  lemma WithTagIdempotent(doc: Document, f: FileName, t: Tag)
    ensures WithTag(WithTag(doc, f, t), f, t) == WithTag(doc, f, t)
  {
  }

  /** Removing a tag just added to a list that lacked it restores the document. */
  lemma WithoutTagUndoesWithTag(doc: Document, f: FileName, t: Tag)
    requires f in doc && t !in doc[f]
    ensures WithoutTag(WithTag(doc, f, t), f, t) == doc
  {
    RemoveFirstAfterAppend(doc[f], t);
  }

  /**
   * The round trip needs the tag to be absent beforehand: when it is already
   * there, `add_tag` does nothing and `remove_tag` then deletes it.
   */
  lemma RoundTripNeedsAbsence(f: FileName, t: Tag)
    ensures var doc := map[f := [t]];
      WithoutTag(WithTag(doc, f, t), f, t) != doc
  {
    var doc := map[f := [t]];
    assert WithTag(doc, f, t) == doc;
    assert RemoveFirst([t], t) == [];
    assert WithoutTag(doc, f, t)[f] == [];
  }
}
