/** The "add to album" dialog for one photo: the albums the photo is already
    in, the albums currently ticked, a name field for creating an album on
    the spot, and a save that only ever adds the photo to albums. */
module AlbumPicker {
  import opened Ordering
  import opened Gallery

  // ---------------------------------------------------------------- trimming

  /** The characters `String.prototype.trim` strips: the ECMAScript
      WhiteSpace code points (tab, vertical tab, form feed, space, no-break
      space, the byte order mark and the Unicode space separators) and the
      LineTerminator code points. */
  predicate IsJsWhitespace(c: char) {
    || c == '\U{0009}' || c == '\U{000B}' || c == '\U{000C}' || c == '\U{0020}'
    || c == '\U{00A0}' || c == '\U{FEFF}'
    || c == '\U{1680}' || ('\U{2000}' <= c <= '\U{200A}')
    || c == '\U{202F}' || c == '\U{205F}' || c == '\U{3000}'
    || c == '\U{000A}' || c == '\U{000D}' || c == '\U{2028}' || c == '\U{2029}'
  }

  /** How many whitespace characters `s` starts with. */
  function LeadingSpace(s: string): (n: nat)
    ensures n <= |s|
    ensures forall k :: 0 <= k < n ==> IsJsWhitespace(s[k])
    ensures n < |s| ==> !IsJsWhitespace(s[n])
  {
    if s != [] && IsJsWhitespace(s[0]) then 1 + LeadingSpace(s[1..]) else 0
  }

  /** How many whitespace characters `s` ends with. */
  function TrailingSpace(s: string): (n: nat)
    ensures n <= |s|
    ensures forall k :: |s| - n <= k < |s| ==> IsJsWhitespace(s[k])
    ensures n < |s| ==> !IsJsWhitespace(s[|s| - n - 1])
  {
    if s != [] && IsJsWhitespace(s[|s| - 1]) then 1 + TrailingSpace(s[..|s| - 1]) else 0
  }

  /** `trim()`: `s` without its leading and trailing whitespace. */
  function Trim(s: string): string {
    var t := s[LeadingSpace(s)..];
    t[..|t| - TrailingSpace(t)]
  }

  /** The trimmed name is empty exactly when the name is all whitespace; a
      non-empty one is the slice of the name that is preceded and followed
      only by whitespace and neither starts nor ends with whitespace, which
      leaves no choice of slice. */
  lemma TrimSpec(s: string)
    ensures Trim(s) == [] <==> forall k :: 0 <= k < |s| ==> IsJsWhitespace(s[k])
    ensures Trim(s) != [] ==> !IsJsWhitespace(Trim(s)[0]) && !IsJsWhitespace(Trim(s)[|Trim(s)| - 1])
    ensures exists i, j ::
              && 0 <= i <= j <= |s| && Trim(s) == s[i..j]
              && (forall k :: 0 <= k < i ==> IsJsWhitespace(s[k]))
              && (forall k :: j <= k < |s| ==> IsJsWhitespace(s[k]))
  {
    var n := LeadingSpace(s);
    var t := s[n..];
    var m := TrailingSpace(t);
    var j := |s| - m;
    assert Trim(s) == s[n..j];
    assert n < |s| ==> t[0] == s[n] && !IsJsWhitespace(t[0]);
    forall k | j <= k < |s|
      ensures IsJsWhitespace(s[k])
    {
      assert s[k] == t[k - n];
    }
  }

  /** Any slice preceded and followed only by whitespace, and neither
      starting nor ending with whitespace, is the trimmed name. */
  lemma TrimUnique(s: string, i: nat, j: nat)
    requires i <= j <= |s|
    requires forall k :: 0 <= k < i ==> IsJsWhitespace(s[k])
    requires forall k :: j <= k < |s| ==> IsJsWhitespace(s[k])
    requires i < j ==> !IsJsWhitespace(s[i]) && !IsJsWhitespace(s[j - 1])
    ensures Trim(s) == s[i..j]
  {
    if i == j {
      TrimSpec(s);
    } else {
      var n := LeadingSpace(s);
      assert n == i;
      var t := s[n..];
      var m := TrailingSpace(t);
      forall k | |t| - (|s| - j) <= k < |t|
        ensures IsJsWhitespace(t[k])
      {
        assert t[k] == s[k + n];
      }
      assert t[j - 1 - n] == s[j - 1];
      assert m == |s| - j;
    }
  }

  // ---------------------------------------------------------------- selection

  /** `Set.prototype.add` on a set kept in insertion order. */
  function SetAdd(s: seq<Id>, x: Id): seq<Id> {
    if x in s then s else s + [x]
  }

  /** `Set.prototype.delete` on a set kept in insertion order. */
  function SetDelete(s: seq<Id>, x: Id): seq<Id> {
    Filter(s, (y: Id) => y != x)
  }

  /** `handleToggleAlbum`: untick a ticked album, tick an unticked one. */
  function Toggle(s: seq<Id>, x: Id): seq<Id> {
    if x in s then SetDelete(s, x) else SetAdd(s, x)
  }

  /** Toggling flips `x` and leaves every other id as it was; the selection
      stays free of duplicates. */
  lemma ToggleSpec(s: seq<Id>, x: Id)
    requires NoDup(s)
    ensures forall y :: y in Toggle(s, x) <==> if y == x then x !in s else y in s
    ensures NoDup(Toggle(s, x))
  {
    if x in s {
      FilterNoDup(s, (y: Id) => y != x);
    } else {
      var r := s + [x];
      forall i, j | 0 <= i < j < |r| ensures r[i] != r[j] {
        assert r[i] == s[i];
        if j < |s| { assert r[j] == s[j]; }
      }
    }
  }

  /** Toggling twice restores the selected set; starting from an unticked
      album it restores the selection exactly. */
  lemma ToggleTwice(s: seq<Id>, x: Id)
    requires NoDup(s)
    ensures forall y :: y in Toggle(Toggle(s, x), x) <==> y in s
    ensures x !in s ==> Toggle(Toggle(s, x), x) == s
  {
    ToggleSpec(s, x);
    ToggleSpec(Toggle(s, x), x);
    if x !in s {
      var p := (y: Id) => y != x;
      FilterConcat(s, [x], p);
      FilterKeepsAll(s, p);
      assert Filter([x], p) == [];
    }
  }

  /** `newAlbumsToAdd` of `handleSave`: the ticked albums the photo is not
      already in, in selection order. */
  function NewAlbumsToAdd(selected: seq<Id>, existing: set<Id>): (r: seq<Id>)
    ensures forall a :: a in r <==> a in selected && a !in existing
    ensures NoDup(selected) ==> NoDup(r)
  {
    var p := (id: Id) => id !in existing;
    if NoDup(selected) then
      FilterNoDup(selected, p);
      Filter(selected, p)
    else
      Filter(selected, p)
  }

  /** `hasChanges`: some ticked album does not hold the photo yet. */
  predicate HasChanges(selected: seq<Id>, existing: set<Id>) {
    exists a :: a in selected && a !in existing
  }

  /** The dialog reports changes exactly when saving would add the photo
      somewhere. */
  lemma HasChangesIffSomethingToAdd(selected: seq<Id>, existing: set<Id>)
    ensures HasChanges(selected, existing) <==> NewAlbumsToAdd(selected, existing) != []
  {
    var r := NewAlbumsToAdd(selected, existing);
    assert r != [] ==> r[0] in r;
    if HasChanges(selected, existing) {
      var a :| a in selected && a !in existing;
      assert a in r;
    }
  }

  /** Unticking an album never creates a change. */
  lemma DeselectIsNoChange(selected: seq<Id>, existing: set<Id>, x: Id)
    requires NoDup(selected) && x in selected
    ensures HasChanges(Toggle(selected, x), existing) ==> HasChanges(selected, existing)
  {
    ToggleSpec(selected, x);
  }

  // ---------------------------------------------------------------- the dialog

  /** The dialog's state. `selected` is a set kept in insertion order, as a
      JavaScript `Set` iterates. */
  class Picker {
    var albums: seq<Album>
    var selected: seq<Id>
    var existing: set<Id>
    var newAlbumName: string
    var isCreatingNew: bool

    ghost predicate Valid()
      reads this
    {
      NoDup(selected)
    }

    constructor ()
      ensures Valid()
      ensures albums == [] && selected == [] && existing == {} && newAlbumName == [] && !isCreatingNew
    {
      albums, selected, existing, newAlbumName, isCreatingNew := [], [], {}, [], false;
    }

    /** `loadData`: the album list, and both the existing and the selected
        set equal to the albums the photo is in. */
    method LoadData(store: Store, photoId: Id, listFaults: AlbumListFaults, photoQueryFailed: bool)
      requires store.Valid()
      modifies this
      ensures Valid()
      ensures selected == store.GetAlbumsForPhoto(photoId, photoQueryFailed)
      ensures existing == set a | a in selected
      ensures listFaults.albums ==> albums == []
      ensures !listFaults.albums ==> |albums| == |store.albums|
      ensures !listFaults.albums ==> forall k :: 0 <= k < |store.albums| ==>
        albums[k] == AlbumView(store.albums[k], if listFaults.counts then 0 else CountOf(store.albumPhotos, store.albums[k].id),
                               CoverUrl(store.albums[k], store.blocks, listFaults.covers))
      ensures newAlbumName == old(newAlbumName) && isCreatingNew == old(isCreatingNew)
    {
      var albumsData := store.GetAlbums(listFaults);
      var photoAlbums := store.GetAlbumsForPhoto(photoId, photoQueryFailed);
      albums := albumsData;
      existing := set a | a in photoAlbums;
      selected := photoAlbums;
    }

    /** `handleToggleAlbum`. */
    method ToggleAlbum(albumId: Id)
      requires Valid()
      modifies this
      ensures Valid()
      ensures selected == Toggle(old(selected), albumId)
      ensures albums == old(albums) && existing == old(existing)
      ensures newAlbumName == old(newAlbumName) && isCreatingNew == old(isCreatingNew)
    {
      ToggleSpec(selected, albumId);
      selected := Toggle(selected, albumId);
    }

    /** `handleCreateAlbum`: a blank name does nothing; otherwise an album
        with the trimmed name is created, and when that succeeds it is put
        first in the list, ticked, and the name field is cleared and closed. */
    method CreateAlbum(store: Store, newId: Id, now: string, failed: bool)
      requires Valid() && store.Valid()
      modifies this, store
      ensures Valid() && store.Valid()
      ensures Trim(old(newAlbumName)) == [] ==> unchanged(this) && unchanged(store)
      ensures store.albumPhotos == old(store.albumPhotos) && store.blocks == old(store.blocks)
      ensures store.entries == old(store.entries) && existing == old(existing)
      ensures
        var created := Trim(old(newAlbumName)) != [] && !failed && FindAlbum(old(store.albums), newId).None?;
        && (created ==>
             && store.albums == [AlbumRow(newId, Trim(old(newAlbumName)), None, None, now, now)] + old(store.albums)
             && albums == [Album(newId, Trim(old(newAlbumName)), None, None, None, 0, now, now)] + old(albums)
             && selected == SetAdd(old(selected), newId)
             && newAlbumName == [] && !isCreatingNew)
        && (!created ==>
             && store.albums == old(store.albums) && albums == old(albums) && selected == old(selected)
             && newAlbumName == old(newAlbumName) && isCreatingNew == old(isCreatingNew))
    {
      var name := Trim(newAlbumName);
      if name == [] { return; }
      var album := store.CreateAlbum(name, None, newId, now, failed);
      if album.Some? {
        ToggleSpec(selected, album.value.id);
        albums := [album.value] + albums;
        selected := SetAdd(selected, album.value.id);
        newAlbumName := [];
        isCreatingNew := false;
      }
    }

    /** `handleSave`: adds the photo to the newly ticked albums, and calls the
        store only when there are any. Unticked albums keep the photo: save
        never removes a membership. */
    method Save(store: Store, photoId: Id, faults: AddFaults)
      requires Valid() && store.Valid()
      modifies store
      ensures store.Valid()
      ensures store.albums == old(store.albums) && store.blocks == old(store.blocks) && store.entries == old(store.entries)
      ensures NewAlbumsToAdd(selected, existing) == [] || faults.upsert || FindBlock(old(store.blocks), photoId).None? ==>
        store.albumPhotos == old(store.albumPhotos)
      ensures NewAlbumsToAdd(selected, existing) != [] && !faults.upsert && FindBlock(old(store.blocks), photoId).Some? ==>
        store.albumPhotos == AddRows(old(store.albumPhotos), photoId, NewAlbumsToAdd(selected, existing), faults.positionQuery)
      ensures forall a, b :: HasPair(old(store.albumPhotos), a, b) ==> HasPair(store.albumPhotos, a, b)
    {
      var newAlbumsToAdd := NewAlbumsToAdd(selected, existing);
      if |newAlbumsToAdd| > 0 {
        AddKeepsPairs(store.albumPhotos, photoId, newAlbumsToAdd, faults.positionQuery);
        var success := store.AddPhotoToAlbums(photoId, newAlbumsToAdd, faults);
      }
    }
  }
}
