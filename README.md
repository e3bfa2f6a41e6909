# Clothes-Storage metadata bookkeeping, in Dafny

Clothes-Storage is a small Flask application for cataloguing photographs of
clothing. A user uploads a photo. Its background is removed, and it is stored
as a JPEG in the upload directory. A JSON document maps each stored image
filename to its ordered list of free-text tags. The gallery page lists the
JPEG files of the upload directory together with their tags.

This project models the bookkeeping that the request handlers in `app.py`
do on that document:

- `filenames.dfy` (module `FileNames`): the stored name of an upload.
  Everything from the last `.` of the client's file name is dropped, and
  `.jpg` is appended. It also holds the case-sensitive `.jpg` suffix test that
  the gallery uses.
- `metadata.dfy` (module `Metadata`): the document as a value
  (`map<string, seq<string>>`). Each handler's effect is a function of the
  loaded document: `WithTag`, `WithoutTag` and `WithEmptyEntry`. The lemmas
  cover duplicates, idempotence, the add/remove round trip and untouched
  entries.
- `store.dfy` (module `Store`): class `MetadataStore` is the document a
  handler loaded. Its methods `AddTag`, `RemoveTag` and `Upload` change it in
  place, as the handlers change the loaded dict. Each method's postcondition
  ties the new document to the function above. Two client sessions replay
  the upload/tag/untag sequence and a colliding re-upload.
- `gallery.dfy` (module `Gallery`): the `index` loop as a method over the
  directory listing, proved equal to a filter/join function. Lemmas state
  that the listing order is kept and that names with no file are never shown.
- `wrappers.dfy`: an `Option` type.

Loading and saving are the boundary. The constructor takes the document as
read from disk (an empty map when the file does not exist), and the field
`doc` afterwards is what the handler writes back. The directory listing
(`os.listdir`) is an input sequence in whatever order the file system gives.

## Model

| member | source | states |
|---|---|---|
| FileNames.LastDot | app.py:57 | the position found is a `.` with no `.` after it; none is found exactly when the name has no `.` |
| FileNames.Stem | app.py:57 | the first piece of `rsplit('.', 1)`: a prefix of the name that is followed by its last `.`, or the whole name when it has no `.` |
| FileNames.Normalize | app.py:57 | the stored name ends in `.jpg`; what precedes `.jpg` is the original name cut at its last `.`, or the whole name when there is none |
| FileNames.NormalizeKeepsJpegName | app.py:57 | a name already ending in `.jpg` is stored under itself |
| FileNames.NormalizeIdempotent | app.py:57 | normalising a stored name again gives the same name |
| FileNames.NormalizeOfExtension | app.py:57 | `stem.ext`, where `ext` has no `.`, is stored as `stem.jpg`, even when `stem` contains dots |
| FileNames.NormalizeIgnoresExtension | app.py:57 | two uploads with the same stem and different extensions share one stored name |
| FileNames.NormalizeShirt | app.py:57 | `shirt.png` is stored as `shirt.jpg` |
| FileNames.NormalizeReadme | app.py:57 | a name without a `.` such as `README` is stored as `README.jpg` |
| FileNames.EndsWith | app.py:36 | `str.endswith`: the suffix is no longer than the string and matches its last characters one by one, case-sensitively; the empty suffix always matches |
| FileNames.IsJpegNameByCharacters | app.py:36 | the test `filename.endswith('.jpg')` (`IsJpegName`) holds exactly when the name's last four characters are `.`, `j`, `p`, `g`, compared case-sensitively |
| Metadata.TagsOf | app.py:37 | `metadata.get(filename, [])`: the stored list for a known name, the empty list otherwise |
| Metadata.FirstIndex | app.py:86 | the position `list.remove` deletes from: it holds the tag, and no earlier position does |
| Metadata.RemoveFirst | app.py:86 | `list.remove`: the list with exactly its first occurrence of the tag cut out, everything before and after kept in place |
| Metadata.WithTag | app.py:73-76 | after `add_tag` the keys are the same and other entries are unchanged; for a known name the tag is present, the old list is a prefix of the new one and it grew by at most one; an unknown name or a tag already present leaves the document equal |
| Metadata.WithoutTag | app.py:84-86 | after `remove_tag` the keys are the same and other entries are unchanged; an unknown name or an absent tag leaves the document equal; otherwise that list becomes one tag shorter |
| Metadata.WithEmptyEntry | app.py:63-64 | after an upload the stored name is a key whose list is empty, whatever it held before; every other entry is unchanged and no other key is added |
| Metadata.RemoveFirstDropsOneCopy | app.py:86 | `list.remove` takes away exactly one copy of the tag, as multisets, and nothing else |
| Metadata.RemoveFirstKeepsOthers | app.py:86 | the tags left after `remove` keep their relative order: before the removed position they stay put, after it they move up by one |
| Metadata.RemoveFirstAfterAppend | app.py:76 | removing a tag that was appended to a list lacking it gives back the list |
| Metadata.RemoveFirstFromDistinct | app.py:86 | in a list without duplicates, `remove` leaves no copy of the tag and no duplicates |
| Metadata.WithTagPreservesWellFormed | app.py:75-76 | `add_tag` never creates a duplicate tag in any list |
| Metadata.WithoutTagPreservesWellFormed | app.py:85-86 | `remove_tag` never creates a duplicate, and on a duplicate-free document the tag is afterwards absent from that list |
| Metadata.WithEmptyEntryPreservesWellFormed | app.py:63-64 | an upload never creates a duplicate tag |
| Metadata.WithTagIdempotent | app.py:74-76 | `add_tag` twice with the same arguments gives the same document as once |
| Metadata.WithoutTagUndoesWithTag | app.py:74-86 | for a known name whose list lacks the tag, `remove_tag` after `add_tag` restores the document exactly |
| Metadata.RoundTripNeedsAbsence | app.py:74-86 | the round trip fails when the tag is already present: `add_tag` is a no-op and `remove_tag` then deletes the existing tag |
| Store.MetadataStore.Load | app.py:20-24 | the store starts with the document as read from disk |
| Store.MetadataStore.AddTag | app.py:70-78 | the document becomes `WithTag` of the old one, and a duplicate-free document stays duplicate-free |
| Store.MetadataStore.RemoveTag | app.py:81-88 | the document becomes `WithoutTag` of the old one; a duplicate-free document stays so, and the tag is then gone |
| Store.MetadataStore.Upload | app.py:42-65 | with no file part or an empty name nothing changes and nothing is stored; otherwise the normalised name is returned and its tag list is reset to empty |
| Gallery.GalleryOf | app.py:35-38 | the gallery has at most as many records as the listing has entries; each shows a `.jpg` name with its tags from the document, or no tags when the document lacks the name |
| Gallery.ListGallery | app.py:32-39 | the `index` loop builds exactly `GalleryOf` of the listing and the document |
| Gallery.ShownPositions | app.py:35-36 | the positions the loop keeps are in range and hold names ending in `.jpg` |
| Gallery.GalleryAtShownPositions | app.py:35-38 | the k-th record shows the listing entry at the k-th kept position |
| Gallery.ShownPositionsIncrease | app.py:35-36 | kept positions strictly increase, so listing order is preserved |
| Gallery.ShownPositionsCoverJpegs | app.py:35-36 | every listing entry ending in `.jpg` is at a kept position |
| Gallery.GalleryKeepsListingOrder | app.py:35-38 | the records are the `.jpg` entries of the listing: each sits at an increasing listing position, and every `.jpg` position is among them |
| Gallery.GalleryHidesMissingFiles | app.py:35-38 | a name that is not in the directory is never shown, whatever the document holds for it |
| Gallery.GalleryAfterUpload | app.py:35-38 | after an upload whose file is in a listing with no repeated names, the stored name is shown exactly once, with no tags |

## Left out

- HTTP plumbing: routing, reading `request.form` and `request.files`, redirects and template rendering (app.py:2, 31, 39, 41, 67, 69, 78, 80, 88). A missing `filename` or `tag` form field makes `request.form[...]` raise a `KeyError` inside the handler (app.py:71-72, 82-83), which Flask answers with a 400; this happens before the document is loaded, so the document is never touched. Only the "no file part / empty filename" guard of `upload` is modelled, as the `Option` input of `Upload`.
- Background removal, conversion to RGB and JPEG encoding (app.py:50-54). These are calls into image libraries that work on pixels.
- Disk I/O: creating the folders, reading and writing the JSON document, writing the JPEG and listing the directory (app.py:16-17, 20-29, 35, 58-60). The document is a value passed in and out, and the listing is an input. `add_tag` saves the document even when nothing changed (app.py:77); that is a write of an equal document, so the model does not distinguish it.
- Store.MetadataStore.Load: does not model reading the file or the empty document used when the file is missing; it takes the document as read.
- Gallery.GalleryAfterUpload: assumes the JPEG was written and shows up in the listing, because writing the file and listing the directory are not modelled.
- Joining the upload folder with the stored name (app.py:58): a client name containing path separators would be written elsewhere. The model treats names as opaque strings.
- Lost updates between concurrent requests. Each handler loads, changes and saves without a lock, so two requests can overwrite each other's change. The model covers one request at a time.
- Malformed JSON and corrupt image data. These raise exceptions in library code and have no behaviour to state.
- Hand-edited documents whose values are not lists of strings (a string, a number, a list holding non-strings). `Document` maps every name to a list of strings and cannot represent them, so what the handlers do with them (for instance a substring test and then an `AttributeError` at app.py:76 when the value is a string) is out of scope.
