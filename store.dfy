/**
 * The request handlers that change the metadata.  Each handler loads the
 * document, changes the loaded copy in place and saves it again; a
 * `MetadataStore` is that loaded copy, and its methods are the in-place
 * changes.  Loading and saving are the caller's: the constructor takes the
 * document as read, and `doc` afterwards is what is written back.
 */
module Store {
  import opened Wrappers
  import opened FileNames
  import opened Metadata

  class MetadataStore {
    /** The loaded metadata document. */
    var doc: Document

    /** The document as it was read from disk (an empty one when there is no file). */
    constructor Load(saved: Document)
      ensures doc == saved
    {
      doc := saved;
    }

    /**
     * `add_tag`: append `t` to the tags of `f` unless `f` is unknown or
     * already carries `t`.
     */
    method AddTag(f: FileName, t: Tag)
      modifies this
      ensures doc == WithTag(old(doc), f, t)
      ensures WellFormed(old(doc)) ==> WellFormed(doc)
    {
      if f in doc {
        if t !in doc[f] {
          doc := doc[f := doc[f] + [t]];
        }
      }
      if WellFormed(old(doc)) {
        WithTagPreservesWellFormed(old(doc), f, t);
      }
    }

    /**
     * `remove_tag`: drop the first occurrence of `t` from the tags of `f`
     * when `f` is known and carries `t`; otherwise change nothing.
     */
    method RemoveTag(f: FileName, t: Tag)
      modifies this
      ensures doc == WithoutTag(old(doc), f, t)
      ensures WellFormed(old(doc)) ==> WellFormed(doc) && (f in doc ==> t !in doc[f])
    {
      if f in doc && t in doc[f] {
        doc := doc[f := RemoveFirst(doc[f], t)];
      }
      if WellFormed(old(doc)) {
        WithoutTagPreservesWellFormed(old(doc), f, t);
      }
    }

    /**
     * `upload`, as far as the metadata goes.  `file` is the name the client
     * sent, or None when the request has no file part.  With no file or an
     * empty name nothing happens; otherwise the image is stored under the
     * normalised name, whose tag list is reset to empty, and that name is
     * returned.
     */
    method Upload(file: Option<string>) returns (stored: Option<FileName>)
      modifies this
      ensures file.None? || file.value == "" ==> stored == None && doc == old(doc)
      ensures file.Some? && file.value != "" ==>
        stored == Some(Normalize(file.value)) &&
        doc == WithEmptyEntry(old(doc), Normalize(file.value))
      ensures WellFormed(old(doc)) ==> WellFormed(doc)
    {
      if file.None? {
        return None;
      }
      if file.value == "" {
        return None;
      }
      var filename := Stem(file.value) + JpegSuffix;
      doc := doc[filename := []];
      stored := Some(filename);
    }
  }

  /**
   * Upload `name`, tag it with `t` twice, tag an image the document does not
   * know, then untag `t`: the stored image ends with no tags again.
   */
  method TagSession(name: string, t: Tag, unknown: FileName)
    requires name != "" && unknown != Normalize(name)
  {
    var f := Normalize(name);
    var store := new MetadataStore.Load(map[]);
    var stored := store.Upload(Some(name));
    assert stored == Some(f) && store.doc == map[f := []];
    store.AddTag(f, t);
    assert store.doc[f] == [] + [t] == [t];
    assert store.doc == map[f := [t]];
    store.AddTag(f, t);
    assert store.doc == map[f := [t]];
    store.AddTag(unknown, t);
    assert store.doc == map[f := [t]];
    store.RemoveTag(f, t);
    assert store.doc == map[f := []];
  }

  /**
   * `first` is uploaded and tagged; a later upload `second` stored under the
   * same name (see `NormalizeIgnoresExtension`) loses those tags.  A
   * request without a file, or with an empty name, changes nothing.
   */
  method CollidingUploadSession(first: string, second: string, t: Tag)
    requires first != "" && second != "" && Normalize(first) == Normalize(second)
  {
    var f := Normalize(first);
    var store := new MetadataStore.Load(map[]);
    var stored := store.Upload(Some(first));
    assert store.doc == map[f := []];
    store.AddTag(f, t);
    assert store.doc[f] == [] + [t] == [t];
    stored := store.Upload(Some(second));
    assert stored == Some(f) && store.doc == map[f := []];
    stored := store.Upload(Some(""));
    assert stored == None && store.doc == map[f := []];
    stored := store.Upload(None);
    assert stored == None && store.doc == map[f := []];
  }
}
