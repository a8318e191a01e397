/** The album membership ledger and the standalone-photo bucket of the
    gallery library: the `albums`, `album_photos`, `blocks` and `entries`
    tables held in memory, the read-side shapers that build `Album` and
    `Photo` views, and the writes that change the tables. Every storage
    failure the library can observe is an explicit input. */
module Gallery {
  import opened Ordering

  /** Title that marks the entry owning standalone gallery photos. */
  const GallerySentinelTitle: string := "__gallery__"
  const SentinelDescription: string := "System entry for standalone gallery photos"
  const SentinelCreator: string := "system"
  /** `entryTitle` of a photo returned by an upload. */
  const GalleryEntryTitle: string := "Gallery"
  const DefaultPhotoName: string := "image"
  const UntitledEntry: string := "Untitled"
  const ImageBlockType: string := "image"

  // ---------------------------------------------------------------- rows

  /** A row of `albums`. Timestamps are opaque strings. */
  datatype AlbumRow = AlbumRow(id: Id, name: string, description: Option<string>,
                               coverPhotoId: Option<Id>, createdAt: string, updatedAt: string)

  /** A row of `album_photos`: photo `blockId` is in album `albumId` at `position`. */
  datatype Membership = Membership(albumId: Id, blockId: Id, position: int)

  /** A row of `blocks`; an image block is a photo. */
  datatype Block = Block(id: Id, entryId: Id, kind: string, content: string,
                         fileName: Option<string>, createdAt: string, position: int)

  /** A row of `entries`, reduced to what the gallery reads and writes. */
  datatype EntryRow = EntryRow(id: Id, title: string, description: Option<string>, createdBy: Option<string>)

  // ---------------------------------------------------------------- views

  datatype Photo = Photo(id: Id, content: string, name: string, entryId: Id,
                         entryTitle: string, createdAt: string)

  datatype Album = Album(id: Id, name: string, description: Option<string>, coverPhotoId: Option<Id>,
                         coverPhotoUrl: Option<string>, photoCount: nat, createdAt: string, updatedAt: string)

  datatype AlbumWithPhotos = AlbumWithPhotos(album: Album, photos: seq<Photo>)

  // ---------------------------------------------------------------- storage failures

  /** Which of the three queries of `getAlbums` fail. */
  datatype AlbumListFaults = AlbumListFaults(albums: bool, counts: bool, covers: bool)

  /** Which of the three queries of `getAlbumWithPhotos` fail. */
  datatype AlbumFaults = AlbumFaults(album: bool, photos: bool, cover: bool)

  /** Which of the two storage calls of `addPhotoToAlbums` fail. */
  datatype AddFaults = AddFaults(positionQuery: bool, upsert: bool)

  /** Which storage calls of `uploadPhotoToGallery` fail. */
  datatype UploadFaults = UploadFaults(lookup: bool, createEntry: bool, upload: bool,
                                       positionQuery: bool, insertBlock: bool)

  // ---------------------------------------------------------------- JavaScript truthiness

  /** `value || undefined` on an optional string: the empty string reads as absent. */
  function NonEmpty(o: Option<string>): Option<string> {
    if o.Some? && o.value != "" then o else None
  }

  /** `value || fallback` on an optional string. */
  function OrDefault(o: Option<string>, fallback: string): string {
    if o.Some? && o.value != "" then o.value else fallback
  }

  // ---------------------------------------------------------------- the membership relation

  predicate SameKey(r: Membership, q: Membership) {
    r.albumId == q.albumId && r.blockId == q.blockId
  }

  /** The UNIQUE (album_id, block_id) constraint that the upsert's conflict
      target relies on. */
  predicate UniquePairs(rows: seq<Membership>) {
    forall i, j :: 0 <= i < |rows| && 0 <= j < |rows| && SameKey(rows[i], rows[j]) ==> i == j
  }

  predicate HasPair(rows: seq<Membership>, albumId: Id, blockId: Id) {
    exists r :: r in rows && r.albumId == albumId && r.blockId == blockId
  }

  lemma UniqueCons(x: Membership, t: seq<Membership>)
    ensures UniquePairs([x] + t) <==> UniquePairs(t) && forall r :: r in t ==> !SameKey(x, r)
  {
    var s := [x] + t;
    if UniquePairs(s) {
      forall i, j | 0 <= i < |t| && 0 <= j < |t| && SameKey(t[i], t[j]) ensures i == j {
        assert s[i + 1] == t[i] && s[j + 1] == t[j];
      }
      forall r | r in t ensures !SameKey(x, r) {
        var k :| 0 <= k < |t| && t[k] == r;
        assert s[0] == x && s[k + 1] == r;
      }
    }
    if UniquePairs(t) && forall r :: r in t ==> !SameKey(x, r) {
      assert s[0] == x;
      assert forall k :: 0 < k < |s| ==> s[k] == t[k - 1] && s[k] in t;
      forall i, j | 0 <= i < |s| && 0 <= j < |s| && SameKey(s[i], s[j]) ensures i == j {
        if i > 0 && j > 0 {
          assert s[i] == t[i - 1] && s[j] == t[j - 1];
        }
      }
    }
  }

  lemma UniqueAppend(s: seq<Membership>, t: seq<Membership>)
    requires UniquePairs(s) && UniquePairs(t)
    requires forall r, q :: r in s && q in t ==> !SameKey(r, q)
    ensures UniquePairs(s + t)
  {
    var u := s + t;
    assert forall k :: 0 <= k < |s| ==> u[k] == s[k] && u[k] in s;
    assert forall k :: |s| <= k < |u| ==> u[k] == t[k - |s|] && u[k] in t;
    forall i, j | 0 <= i < |u| && 0 <= j < |u| && SameKey(u[i], u[j]) ensures i == j {
      if i < |s| && j < |s| {
        assert u[i] == s[i] && u[j] == s[j];
      } else if i >= |s| && j >= |s| {
        assert u[i] == t[i - |s|] && u[j] == t[j - |s|];
      }
    }
  }

  /** The positions used in album `albumId`. */
  function AlbumPositions(rows: seq<Membership>, albumId: Id): (ps: seq<int>)
    ensures forall p :: p in ps <==> exists r :: r in rows && r.albumId == albumId && r.position == p
  {
    if rows == [] then []
    else
      assert forall r :: r in rows <==> r == rows[0] || r in rows[1..];
      (if rows[0].albumId == albumId then [rows[0].position] else []) + AlbumPositions(rows[1..], albumId)
  }

  /** If `p` is the largest position among album `albumId`'s rows, the append
      position of that album is `p + 1`. */
  lemma TopIsNext(rows: seq<Membership>, albumId: Id, p: int)
    requires exists r :: r in rows && r.albumId == albumId && r.position == p
    requires forall r :: r in rows && r.albumId == albumId ==> r.position <= p
    ensures NextPosition(AlbumPositions(rows, albumId)) == p + 1
  {
    var ps := AlbumPositions(rows, albumId);
    assert p in ps;
    assert NextPosition(ps) - 1 in ps;
  }

  /** The rows of `rows` except those for photo `blockId` in one of `albumIds`:
      what a delete filtered on both columns, or the replacing half of the
      upsert, leaves behind. */
  function DropPairs(rows: seq<Membership>, blockId: Id, albumIds: seq<Id>): (r: seq<Membership>)
    ensures forall x :: x in r <==> x in rows && !(x.blockId == blockId && x.albumId in albumIds)
    ensures UniquePairs(rows) ==> UniquePairs(r)
  {
    if rows == [] then []
    else
      var rest := DropPairs(rows[1..], blockId, albumIds);
      assert rows == [rows[0]] + rows[1..];
      UniqueCons(rows[0], rows[1..]);
      assert forall x :: x in rows <==> x == rows[0] || x in rows[1..];
      if rows[0].blockId == blockId && rows[0].albumId in albumIds then rest
      else
        UniqueCons(rows[0], rest);
        [rows[0]] + rest
  }

  /** The rows the upsert writes for photo `blockId`, one per album of
      `albumIds`: the album's append position, or 0 for every album when the
      position query failed (its result is then read as "no rows"). */
  function Batch(rows: seq<Membership>, blockId: Id, albumIds: seq<Id>, positionQueryFailed: bool): (batch: seq<Membership>)
  {
    seq(|albumIds|, k requires 0 <= k < |albumIds| =>
      Membership(albumIds[k], blockId, if positionQueryFailed then 0 else NextPosition(AlbumPositions(rows, albumIds[k]))))
  }

  /** The table after a successful upsert of `Batch`: every existing row for
      one of the written pairs is replaced (its position reassigned), every
      other row is kept. */
  function AddRows(rows: seq<Membership>, blockId: Id, albumIds: seq<Id>, positionQueryFailed: bool): seq<Membership>
  {
    DropPairs(rows, blockId, albumIds) + Batch(rows, blockId, albumIds, positionQueryFailed)
  }

  /** After a successful add, each target album holds photo `blockId` exactly
      once, at the position the batch computed; rows for every other pair are
      exactly those there were before. */
  lemma AddRowsSpec(rows: seq<Membership>, blockId: Id, albumIds: seq<Id>, positionQueryFailed: bool)
    requires UniquePairs(rows) && NoDup(albumIds)
    ensures UniquePairs(AddRows(rows, blockId, albumIds, positionQueryFailed))
    ensures forall a :: a in albumIds ==>
      Membership(a, blockId, if positionQueryFailed then 0 else NextPosition(AlbumPositions(rows, a)))
        in AddRows(rows, blockId, albumIds, positionQueryFailed)
    ensures forall r :: r in AddRows(rows, blockId, albumIds, positionQueryFailed) && r.blockId == blockId && r.albumId in albumIds ==>
      r.position == (if positionQueryFailed then 0 else NextPosition(AlbumPositions(rows, r.albumId)))
    ensures forall r: Membership :: !(r.blockId == blockId && r.albumId in albumIds) ==>
      (r in AddRows(rows, blockId, albumIds, positionQueryFailed) <==> r in rows)
  {
    var batch := Batch(rows, blockId, albumIds, positionQueryFailed);
    AddRowsUnique(rows, blockId, albumIds, positionQueryFailed);
    forall a | a in albumIds
      ensures Membership(a, blockId, if positionQueryFailed then 0 else NextPosition(AlbumPositions(rows, a))) in batch
    {
      var k :| 0 <= k < |albumIds| && albumIds[k] == a;
      assert batch[k] == Membership(a, blockId, if positionQueryFailed then 0 else NextPosition(AlbumPositions(rows, a)));
    }
  }

  /** A successful add keeps the pairs of the table unique. */
  lemma AddRowsUnique(rows: seq<Membership>, blockId: Id, albumIds: seq<Id>, positionQueryFailed: bool)
    requires UniquePairs(rows) && NoDup(albumIds)
    ensures UniquePairs(AddRows(rows, blockId, albumIds, positionQueryFailed))
  {
    var kept := DropPairs(rows, blockId, albumIds);
    var batch := Batch(rows, blockId, albumIds, positionQueryFailed);
    assert forall r :: r in batch ==> r.blockId == blockId && r.albumId in albumIds;
    forall i, j | 0 <= i < |batch| && 0 <= j < |batch| && SameKey(batch[i], batch[j]) ensures i == j {
      assert albumIds[i] == albumIds[j];
    }
    UniqueAppend(kept, batch);
  }

  /** Re-adding a photo to an album that already holds it replaces its row
      at the end of the album: the new position is larger than the old one. */
  lemma ReAddMovesToEnd(rows: seq<Membership>, blockId: Id, albumId: Id, albumIds: seq<Id>, oldPosition: int)
    requires UniquePairs(rows) && NoDup(albumIds) && albumId in albumIds
    requires Membership(albumId, blockId, oldPosition) in rows
    ensures Membership(albumId, blockId, oldPosition) !in AddRows(rows, blockId, albumIds, false)
    ensures exists r :: r in AddRows(rows, blockId, albumIds, false) && r.albumId == albumId
                        && r.blockId == blockId && r.position > oldPosition
  {
    AddRowsSpec(rows, blockId, albumIds, false);
    var p := NextPosition(AlbumPositions(rows, albumId));
    assert oldPosition in AlbumPositions(rows, albumId);
    assert Membership(albumId, blockId, p) in AddRows(rows, blockId, albumIds, false);
  }

  /** Removing a photo that is not at the top of an album leaves the album's
      append position where it was: the gap it leaves is never reused. */
  lemma RemoveBelowTopKeepsNext(rows: seq<Membership>, blockId: Id, albumId: Id, top: Membership)
    requires top in rows && top.albumId == albumId && top.blockId != blockId
    requires forall r :: r in rows && r.albumId == albumId ==> r.position <= top.position
    ensures NextPosition(AlbumPositions(DropPairs(rows, blockId, [albumId]), albumId))
         == NextPosition(AlbumPositions(rows, albumId))
         == top.position + 1
  {
    TopIsNext(rows, albumId, top.position);
    TopIsNext(DropPairs(rows, blockId, [albumId]), albumId, top.position);
  }

  /** Adding a photo that is not yet in album `albumId` appends one row after
      the album's top row `top`. */
  lemma AddToAlbumTop(rows: seq<Membership>, blockId: Id, albumId: Id, top: Membership)
    requires !HasPair(rows, albumId, blockId)
    requires top in rows && top.albumId == albumId
    requires forall r :: r in rows && r.albumId == albumId ==> r.position <= top.position
    ensures AddRows(rows, blockId, [albumId], false) == rows + [Membership(albumId, blockId, top.position + 1)]
  {
    RemoveAbsentIsNoop(rows, blockId, albumId);
    TopIsNext(rows, albumId, top.position);
    var b := Batch(rows, blockId, [albumId], false);
    assert |b| == 1 && b[0] == Membership(albumId, blockId, top.position + 1);
    assert b == [Membership(albumId, blockId, top.position + 1)];
  }

  /** An add never takes a photo out of an album: every pair present before
      is present after. */
  lemma AddKeepsPairs(rows: seq<Membership>, blockId: Id, albumIds: seq<Id>, positionQueryFailed: bool)
    requires UniquePairs(rows) && NoDup(albumIds)
    ensures forall a, b :: HasPair(rows, a, b) ==> HasPair(AddRows(rows, blockId, albumIds, positionQueryFailed), a, b)
  {
    var after := AddRows(rows, blockId, albumIds, positionQueryFailed);
    AddRowsSpec(rows, blockId, albumIds, positionQueryFailed);
    forall a, b | HasPair(rows, a, b) ensures HasPair(after, a, b) {
      var r :| r in rows && r.albumId == a && r.blockId == b;
      if r.blockId == blockId && r.albumId in albumIds {
        var m := Membership(a, blockId, if positionQueryFailed then 0 else NextPosition(AlbumPositions(rows, a)));
        assert m in after;
      } else {
        assert r in after;
      }
    }
  }

  /** Number of rows of album `albumId`: the `photoCount` of `getAlbums`. */
  function CountOf(rows: seq<Membership>, albumId: Id): nat {
    if rows == [] then 0
    else CountOf(rows[..|rows| - 1], albumId) + (if rows[|rows| - 1].albumId == albumId then 1 else 0)
  }

  /** The photos in album `albumId`. */
  function PhotosIn(rows: seq<Membership>, albumId: Id): set<Id> {
    set r | r in rows && r.albumId == albumId :: r.blockId
  }

  /** The albums holding photo `blockId`: the photo is unattached when this is
      empty, attached to these albums otherwise. */
  function AlbumsOf(rows: seq<Membership>, blockId: Id): set<Id> {
    set r | r in rows && r.blockId == blockId :: r.albumId
  }

  /** With unique pairs, an album's row count is the number of distinct photos in it. */
  lemma {:induction false} CountIsDistinctPhotos(rows: seq<Membership>, albumId: Id)
    requires UniquePairs(rows)
    ensures CountOf(rows, albumId) == |PhotosIn(rows, albumId)|
  {
    if rows != [] {
      var init, last := rows[..|rows| - 1], rows[|rows| - 1];
      assert rows == init + [last];
      UniqueAppendParts(init, last);
      CountIsDistinctPhotos(init, albumId);
      PhotosInSnoc(init, last, albumId);
    }
  }

  lemma PhotosInSnoc(init: seq<Membership>, last: Membership, albumId: Id)
    ensures PhotosIn(init + [last], albumId)
         == if last.albumId == albumId then PhotosIn(init, albumId) + {last.blockId} else PhotosIn(init, albumId)
  {
    assert forall r :: r in init + [last] <==> r in init || r == last;
  }

  lemma UniqueAppendParts(init: seq<Membership>, last: Membership)
    requires UniquePairs(init + [last])
    ensures UniquePairs(init)
    ensures forall r :: r in init ==> !SameKey(r, last)
  {
    var s := init + [last];
    forall i, j | 0 <= i < |init| && 0 <= j < |init| && SameKey(init[i], init[j]) ensures i == j {
      assert s[i] == init[i] && s[j] == init[j];
    }
    forall r | r in init ensures !SameKey(r, last) {
      var k :| 0 <= k < |init| && init[k] == r;
      assert s[k] == r && s[|init|] == last;
    }
  }

  /** How a successful add changes an album's photo set: the targets gain the
      photo, every other album keeps its photos. */
  lemma PhotosAfterAdd(rows: seq<Membership>, blockId: Id, albumIds: seq<Id>, positionQueryFailed: bool, a: Id)
    requires UniquePairs(rows) && NoDup(albumIds)
    ensures PhotosIn(AddRows(rows, blockId, albumIds, positionQueryFailed), a)
         == if a in albumIds then PhotosIn(rows, a) + {blockId} else PhotosIn(rows, a)
  {
    AddRowsSpec(rows, blockId, albumIds, positionQueryFailed);
    var after := AddRows(rows, blockId, albumIds, positionQueryFailed);
    if a in albumIds {
      assert Membership(a, blockId, if positionQueryFailed then 0 else NextPosition(AlbumPositions(rows, a))) in after;
      forall b | b in PhotosIn(rows, a) ensures b in PhotosIn(after, a) {
        var r :| r in rows && r.albumId == a && r.blockId == b;
        if b != blockId { assert r in after; }
      }
    } else {
      forall b | b in PhotosIn(rows, a) ensures b in PhotosIn(after, a) {
        var r :| r in rows && r.albumId == a && r.blockId == b;
        assert r in after;
      }
    }
  }

  /** `photoCount` after a successful add grows by one in each target album
      that did not hold the photo, and is unchanged everywhere else. */
  lemma CountAfterAdd(rows: seq<Membership>, blockId: Id, albumIds: seq<Id>, positionQueryFailed: bool, a: Id)
    requires UniquePairs(rows) && NoDup(albumIds)
    ensures CountOf(AddRows(rows, blockId, albumIds, positionQueryFailed), a)
         == CountOf(rows, a) + (if a in albumIds && !HasPair(rows, a, blockId) then 1 else 0)
  {
    var after := AddRows(rows, blockId, albumIds, positionQueryFailed);
    AddRowsUnique(rows, blockId, albumIds, positionQueryFailed);
    PhotosAfterAdd(rows, blockId, albumIds, positionQueryFailed, a);
    CountIsDistinctPhotos(rows, a);
    CountIsDistinctPhotos(after, a);
    var before := PhotosIn(rows, a);
    assert HasPair(rows, a, blockId) <==> blockId in before;
    SizeWith(before, blockId);
  }

  lemma SizeWith(s: set<Id>, x: Id)
    ensures |s + {x}| == |s| + (if x in s then 0 else 1)
  {
    if x in s {
      assert s + {x} == s;
    }
  }

  /** The photo's album set after a successful add is the old set plus the
      targets; any other photo's album set is unchanged. */
  lemma AlbumsAfterAdd(rows: seq<Membership>, blockId: Id, albumIds: seq<Id>, positionQueryFailed: bool, b: Id)
    requires UniquePairs(rows) && NoDup(albumIds)
    ensures AlbumsOf(AddRows(rows, blockId, albumIds, positionQueryFailed), b)
         == if b == blockId then AlbumsOf(rows, b) + set a | a in albumIds else AlbumsOf(rows, b)
  {
    AddRowsSpec(rows, blockId, albumIds, positionQueryFailed);
    var after := AddRows(rows, blockId, albumIds, positionQueryFailed);
    if b == blockId {
      forall a | a in albumIds ensures a in AlbumsOf(after, b) {
        assert Membership(a, blockId, if positionQueryFailed then 0 else NextPosition(AlbumPositions(rows, a))) in after;
      }
      forall a | a in AlbumsOf(rows, b) ensures a in AlbumsOf(after, b) {
        var r :| r in rows && r.blockId == b && r.albumId == a;
        if a !in albumIds { assert r in after; }
      }
    } else {
      forall a | a in AlbumsOf(rows, b) ensures a in AlbumsOf(after, b) {
        var r :| r in rows && r.blockId == b && r.albumId == a;
        assert r in after;
      }
    }
  }

  /** Removing a pair takes exactly that album out of the photo's album set
      and that photo out of the album's photo set; every other row stays. */
  lemma RemoveSpec(rows: seq<Membership>, blockId: Id, albumId: Id)
    ensures !HasPair(DropPairs(rows, blockId, [albumId]), albumId, blockId)
    ensures forall r: Membership :: !(r.blockId == blockId && r.albumId == albumId) ==>
      (r in DropPairs(rows, blockId, [albumId]) <==> r in rows)
    ensures AlbumsOf(DropPairs(rows, blockId, [albumId]), blockId) == AlbumsOf(rows, blockId) - {albumId}
    ensures PhotosIn(DropPairs(rows, blockId, [albumId]), albumId) == PhotosIn(rows, albumId) - {blockId}
  {
    var after := DropPairs(rows, blockId, [albumId]);
    forall a | a in AlbumsOf(rows, blockId) - {albumId} ensures a in AlbumsOf(after, blockId) {
      var r :| r in rows && r.blockId == blockId && r.albumId == a;
      assert r in after;
    }
    forall b | b in PhotosIn(rows, albumId) - {blockId} ensures b in PhotosIn(after, albumId) {
      var r :| r in rows && r.albumId == albumId && r.blockId == b;
      assert r in after;
    }
  }

  /** `photoCount` after a removal drops by one exactly when the pair was there. */
  lemma CountAfterRemove(rows: seq<Membership>, blockId: Id, albumId: Id)
    requires UniquePairs(rows)
    ensures CountOf(DropPairs(rows, blockId, [albumId]), albumId)
         == CountOf(rows, albumId) - (if HasPair(rows, albumId, blockId) then 1 else 0)
  {
    RemoveSpec(rows, blockId, albumId);
    CountIsDistinctPhotos(rows, albumId);
    CountIsDistinctPhotos(DropPairs(rows, blockId, [albumId]), albumId);
    if HasPair(rows, albumId, blockId) {
      var r :| r in rows && r.albumId == albumId && r.blockId == blockId;
      assert blockId in PhotosIn(rows, albumId);
    } else {
      assert blockId !in PhotosIn(rows, albumId);
    }
  }

  /** Removing a pair that is not there leaves the table as it was. */
  lemma {:induction false} RemoveAbsentIsNoop(rows: seq<Membership>, blockId: Id, albumId: Id)
    requires !HasPair(rows, albumId, blockId)
    ensures DropPairs(rows, blockId, [albumId]) == rows
  {
    if rows != [] {
      assert rows == [rows[0]] + rows[1..];
      assert !HasPair(rows[1..], albumId, blockId);
      RemoveAbsentIsNoop(rows[1..], blockId, albumId);
      assert rows[0] in rows;
    }
  }

  /** The album ids of photo `blockId`'s rows, in table order. */
  function AlbumIdsOf(rows: seq<Membership>, blockId: Id): (ids: seq<Id>)
    ensures forall a :: a in ids <==> HasPair(rows, a, blockId)
    ensures UniquePairs(rows) ==> NoDup(ids)
  {
    if rows == [] then []
    else
      var rest := AlbumIdsOf(rows[1..], blockId);
      assert rows == [rows[0]] + rows[1..];
      UniqueCons(rows[0], rows[1..]);
      assert forall r :: r in rows <==> r == rows[0] || r in rows[1..];
      assert forall a :: HasPair(rows, a, blockId) <==>
        (rows[0].albumId == a && rows[0].blockId == blockId) || HasPair(rows[1..], a, blockId);
      if rows[0].blockId == blockId then
        assert UniquePairs(rows) ==> rows[0].albumId !in rest;
        [rows[0].albumId] + rest
      else rest
  }

  // ---------------------------------------------------------------- cover lookup

  /** Content of the last block with id `id`: the value the cover map of
      `getAlbums` ends up holding for that id. */
  function ContentOf(bs: seq<Block>, id: Id): (c: Option<string>)
    ensures c.None? <==> forall b :: b in bs ==> b.id != id
    ensures c.Some? ==> exists b :: b in bs && b.id == id && b.content == c.value
  {
    if bs == [] then None
    else
      assert bs == bs[..|bs| - 1] + [bs[|bs| - 1]];
      assert forall b :: b in bs <==> b in bs[..|bs| - 1] || b == bs[|bs| - 1];
      if bs[|bs| - 1].id == id then Some(bs[|bs| - 1].content) else ContentOf(bs[..|bs| - 1], id)
  }

  /** The blocks whose id is one of `ids`, in table order: the cover query. */
  function BlocksWithIds(bs: seq<Block>, ids: seq<Id>): (r: seq<Block>)
    ensures forall b :: b in r ==> b in bs && b.id in ids
  {
    if bs == [] then []
    else
      var init := BlocksWithIds(bs[..|bs| - 1], ids);
      if bs[|bs| - 1].id in ids then init + [bs[|bs| - 1]] else init
  }

  /** Looking up a requested id among the fetched covers finds what looking
      it up in the whole table finds. */
  lemma {:induction false} ContentOfQuery(bs: seq<Block>, ids: seq<Id>, id: Id)
    requires id in ids
    ensures ContentOf(BlocksWithIds(bs, ids), id) == ContentOf(bs, id)
  {
    if bs != [] {
      ContentOfQuery(bs[..|bs| - 1], ids, id);
      var init := BlocksWithIds(bs[..|bs| - 1], ids);
      var last := bs[|bs| - 1];
      if last.id in ids {
        assert (init + [last])[..|init + [last]| - 1] == init;
      }
    }
  }

  /** The cover ids of the albums that have one (a truthy `cover_photo_id`). */
  function CoverIds(albums: seq<AlbumRow>): (ids: seq<Id>)
    ensures forall a :: a in albums && NonEmpty(a.coverPhotoId).Some? ==> a.coverPhotoId.value in ids
  {
    if albums == [] then []
    else
      assert forall a :: a in albums <==> a == albums[0] || a in albums[1..];
      (if NonEmpty(albums[0].coverPhotoId).Some? then [albums[0].coverPhotoId.value] else [])
        + CoverIds(albums[1..])
  }

  /** The cover URL shown for an album: absent without a (truthy) cover id,
      when the cover query failed, or when no block has that id. */
  function CoverUrl(row: AlbumRow, bs: seq<Block>, coverQueryFailed: bool): Option<string> {
    match NonEmpty(row.coverPhotoId)
    case None => None
    case Some(c) => if coverQueryFailed then None else ContentOf(bs, c)
  }

  /** An `albums` row shaped into an `Album` view. */
  function AlbumView(row: AlbumRow, photoCount: nat, coverPhotoUrl: Option<string>): Album {
    Album(row.id, row.name, NonEmpty(row.description), NonEmpty(row.coverPhotoId),
          coverPhotoUrl, photoCount, row.createdAt, row.updatedAt)
  }

  /** `countMap` of `getAlbums`: one increment per row. */
  method CountByAlbum(rows: seq<Membership>) returns (counts: map<Id, nat>)
    ensures forall a :: a in counts <==> CountOf(rows, a) > 0
    ensures forall a :: a in counts ==> counts[a] == CountOf(rows, a)
  {
    counts := map[];
    for i := 0 to |rows|
      invariant forall a :: a in counts <==> CountOf(rows[..i], a) > 0
      invariant forall a :: a in counts ==> counts[a] == CountOf(rows[..i], a)
    {
      assert rows[..i + 1][..i] == rows[..i];
      var albumId := rows[i].albumId;
      counts := counts[albumId := (if albumId in counts then counts[albumId] else 0) + 1];
    }
    assert rows[..|rows|] == rows;
  }

  /** `coverPhotos` of `getAlbums`: block id to content, later rows overwriting. */
  method CoverContents(covers: seq<Block>) returns (contents: map<Id, string>)
    ensures forall id :: id in contents <==> ContentOf(covers, id).Some?
    ensures forall id :: id in contents ==> contents[id] == ContentOf(covers, id).value
  {
    contents := map[];
    for i := 0 to |covers|
      invariant forall id :: id in contents <==> ContentOf(covers[..i], id).Some?
      invariant forall id :: id in contents ==> contents[id] == ContentOf(covers[..i], id).value
    {
      assert covers[..i + 1][..i] == covers[..i];
      contents := contents[covers[i].id := covers[i].content];
    }
    assert covers[..|covers|] == covers;
  }

  function NegPosition(r: Membership): int { -r.position }

  /** For each album of `rows`, the position of its first row. */
  function Tops(rows: seq<Membership>): map<Id, int> {
    if rows == [] then map[]
    else
      var t := Tops(rows[..|rows| - 1]);
      var r := rows[|rows| - 1];
      if r.albumId in t then t else t[r.albumId := r.position]
  }

  /** On rows sorted by descending position, the first position of an album
      is its largest: one less than its append position. */
  lemma {:induction false} TopsAreMax(rows: seq<Membership>)
    requires SortedBy(rows, NegPosition)
    ensures forall a :: a in Tops(rows) <==> AlbumPositions(rows, a) != []
    ensures forall a :: a in Tops(rows) ==> Tops(rows)[a] + 1 == NextPosition(AlbumPositions(rows, a))
  {
    if rows != [] {
      var s := rows[..|rows| - 1];
      var r := rows[|rows| - 1];
      assert rows == s + [r];
      assert SortedBy(s, NegPosition) by {
        assert forall k :: 0 <= k < |s| ==> s[k] == rows[k];
      }
      assert forall k :: 0 <= k < |s| ==> r.position <= s[k].position by {
        assert forall k :: 0 <= k < |s| ==> s[k] == rows[k];
      }
      TopsAreMax(s);
      forall a ensures (a in Tops(rows) <==> AlbumPositions(rows, a) != [])
                    && (a in Tops(rows) ==> Tops(rows)[a] + 1 == NextPosition(AlbumPositions(rows, a))) {
        TopsStep(s, r, a);
      }
    }
  }

  /** One row appended to `s`, its position no larger than any in `s`: album
      `a`'s entry of Tops keeps its meaning. */
  lemma TopsStep(s: seq<Membership>, r: Membership, a: Id)
    requires forall k :: 0 <= k < |s| ==> r.position <= s[k].position
    requires a in Tops(s) <==> AlbumPositions(s, a) != []
    requires a in Tops(s) ==> Tops(s)[a] + 1 == NextPosition(AlbumPositions(s, a))
    ensures a in Tops(s + [r]) <==> AlbumPositions(s + [r], a) != []
    ensures a in Tops(s + [r]) ==> Tops(s + [r])[a] + 1 == NextPosition(AlbumPositions(s + [r], a))
  {
    var t := s + [r];
    assert t[..|t| - 1] == s && t[|t| - 1] == r;
    assert Tops(t) == if r.albumId in Tops(s) then Tops(s) else Tops(s)[r.albumId := r.position];
    AlbumPositionsSnoc(s, r, a);
    if a == r.albumId {
      TopStaysTop(s, r);
    } else {
      var ps := AlbumPositions(s, a);
      assert ps + [] == ps;
      assert AlbumPositions(t, a) == ps;
      assert a in Tops(t) <==> a in Tops(s);
      assert a in Tops(s) ==> Tops(t)[a] == Tops(s)[a];
    }
  }

  /** `maxPositions` of `addPhotoToAlbums`: walking rows sorted by descending
      position and keeping the first position seen per album yields, for each
      album present, one less than its append position. */
  method MaxPositions(existing: seq<Membership>) returns (maxPositions: map<Id, int>)
    requires SortedBy(existing, NegPosition)
    ensures forall a :: a in maxPositions <==> AlbumPositions(existing, a) != []
    ensures forall a :: a in maxPositions ==> maxPositions[a] + 1 == NextPosition(AlbumPositions(existing, a))
  {
    maxPositions := map[];
    for i := 0 to |existing|
      invariant maxPositions == Tops(existing[..i])
    {
      var ap := existing[i];
      assert existing[..i + 1][..i] == existing[..i];
      if ap.albumId !in maxPositions {
        maxPositions := maxPositions[ap.albumId := ap.position];
      }
    }
    assert existing[..|existing|] == existing;
    TopsAreMax(existing);
  }

  /** Appending row `r`, whose position is no larger than any before it,
      keeps its album's append position, or starts it at `r.position + 1`. */
  lemma TopStaysTop(seen: seq<Membership>, r: Membership)
    requires forall k :: 0 <= k < |seen| ==> r.position <= seen[k].position
    ensures var ps := AlbumPositions(seen, r.albumId);
      NextPosition(ps + [r.position]) == if ps == [] then r.position + 1 else NextPosition(ps)
  {
    var ps := AlbumPositions(seen, r.albumId);
    if ps != [] {
      var top := NextPosition(ps) - 1;
      assert top in ps;
      var x :| x in seen && x.albumId == r.albumId && x.position == top;
      var k :| 0 <= k < |seen| && seen[k] == x;
      assert r.position <= top;
    }
    NextPositionSnoc(ps, r.position);
  }

  lemma {:induction false} AlbumPositionsSnoc(rows: seq<Membership>, r: Membership, albumId: Id)
    ensures AlbumPositions(rows + [r], albumId)
         == AlbumPositions(rows, albumId) + (if r.albumId == albumId then [r.position] else [])
  {
    if rows == [] {
      assert [] + [r] == [r];
    } else {
      var t := rows + [r];
      assert t[0] == rows[0] && t[1..] == rows[1..] + [r];
      var head := if rows[0].albumId == albumId then [rows[0].position] else [];
      var last := if r.albumId == albumId then [r.position] else [];
      AlbumPositionsSnoc(rows[1..], r, albumId);
      calc {
        AlbumPositions(t, albumId);
        head + AlbumPositions(rows[1..] + [r], albumId);
        head + (AlbumPositions(rows[1..], albumId) + last);
        (head + AlbumPositions(rows[1..], albumId)) + last;
      }
    }
  }

  /** Appending a position `p` no larger than an existing one keeps the append
      position; appending to an empty scope makes it `p + 1`. */
  lemma NextPositionSnoc(ps: seq<int>, p: int)
    requires ps != [] ==> p < NextPosition(ps)
    ensures NextPosition(ps + [p]) == if ps == [] then p + 1 else NextPosition(ps)
  {
    var qs := ps + [p];
    assert forall q :: q in qs <==> q in ps || q == p;
    var n := NextPosition(qs);
    assert n - 1 in qs;
    if ps != [] {
      assert NextPosition(ps) - 1 in qs;
    }
  }

  // ---------------------------------------------------------------- unique ids

  /** No two rows of `s` share a `key`: a primary key. */
  predicate UniqueIds<T>(s: seq<T>, key: T -> Id) {
    forall i, j :: 0 <= i < |s| && 0 <= j < |s| && key(s[i]) == key(s[j]) ==> i == j
  }

  lemma UniqueIdsCons<T>(x: T, t: seq<T>, key: T -> Id)
    ensures UniqueIds([x] + t, key) <==> UniqueIds(t, key) && forall y :: y in t ==> key(y) != key(x)
  {
    var s := [x] + t;
    assert s[0] == x;
    assert forall k :: 0 < k < |s| ==> s[k] == t[k - 1] && s[k] in t;
    if UniqueIds(s, key) {
      forall i, j | 0 <= i < |t| && 0 <= j < |t| && key(t[i]) == key(t[j]) ensures i == j {
        assert s[i + 1] == t[i] && s[j + 1] == t[j];
      }
      forall y | y in t ensures key(y) != key(x) {
        var k :| 0 <= k < |t| && t[k] == y;
        assert s[k + 1] == y;
      }
    }
  }

  lemma UniqueIdsSnoc<T>(t: seq<T>, x: T, key: T -> Id)
    requires UniqueIds(t, key) && forall y :: y in t ==> key(y) != key(x)
    ensures UniqueIds(t + [x], key)
  {
    var s := t + [x];
    assert forall k :: 0 <= k < |t| ==> s[k] == t[k] && s[k] in t;
    assert s[|t|] == x;
  }

  lemma {:induction false} UniqueIdsFilter<T(!new)>(s: seq<T>, p: T -> bool, key: T -> Id)
    requires UniqueIds(s, key)
    ensures UniqueIds(Filter(s, p), key)
  {
    if s != [] {
      assert s == [s[0]] + s[1..];
      UniqueIdsCons(s[0], s[1..], key);
      UniqueIdsFilter(s[1..], p, key);
      if p(s[0]) {
        UniqueIdsCons(s[0], Filter(s[1..], p), key);
      }
    }
  }

  function AlbumRowId(a: AlbumRow): Id { a.id }
  function BlockId(b: Block): Id { b.id }
  function EntryRowId(e: EntryRow): Id { e.id }

  /** The album row with id `id`, if any. */
  function FindAlbum(albums: seq<AlbumRow>, id: Id): (r: Option<AlbumRow>)
    ensures r.Some? ==> r.value in albums && r.value.id == id
    ensures r.None? <==> forall a :: a in albums ==> a.id != id
  {
    if albums == [] then None
    else
      assert forall a :: a in albums <==> a == albums[0] || a in albums[1..];
      if albums[0].id == id then Some(albums[0]) else FindAlbum(albums[1..], id)
  }

  /** The block with id `id`, if any. */
  function FindBlock(bs: seq<Block>, id: Id): (r: Option<Block>)
    ensures r.Some? ==> r.value in bs && r.value.id == id
    ensures r.None? <==> forall b :: b in bs ==> b.id != id
  {
    if bs == [] then None
    else
      assert forall b :: b in bs <==> b == bs[0] || b in bs[1..];
      if bs[0].id == id then Some(bs[0]) else FindBlock(bs[1..], id)
  }

  /** The entry with id `id`, if any. */
  function FindEntry(es: seq<EntryRow>, id: Id): (r: Option<EntryRow>)
    ensures r.Some? ==> r.value in es && r.value.id == id
    ensures r.None? <==> forall e :: e in es ==> e.id != id
  {
    if es == [] then None
    else
      assert forall e :: e in es <==> e == es[0] || e in es[1..];
      if es[0].id == id then Some(es[0]) else FindEntry(es[1..], id)
  }

  // ---------------------------------------------------------------- one album with its photos

  function MemberPosition(r: Membership): int { r.position }

  /** A joined block and entry title shaped into a `Photo` view. */
  function PhotoOf(b: Block, entryTitle: string): Photo {
    Photo(b.id, b.content, OrDefault(b.fileName, DefaultPhotoName), b.entryId,
          OrDefault(Some(entryTitle), UntitledEntry), b.createdAt)
  }

  /** The photo the inner join of a membership row with `blocks` and then
      `entries` yields for block `blockId`; none when either row is missing. */
  function Resolve(bs: seq<Block>, es: seq<EntryRow>, blockId: Id): (r: Option<Photo>)
    ensures r.Some? ==> r.value.id == blockId
  {
    match FindBlock(bs, blockId)
    case None => None
    case Some(b) =>
      match FindEntry(es, b.entryId)
      case None => None
      case Some(e) => Some(PhotoOf(b, e.title))
  }

  /** The membership rows that survive the inner join, each with its photo,
      in the order of `rows`. */
  function Join(rows: seq<Membership>, bs: seq<Block>, es: seq<EntryRow>): (r: seq<(Membership, Photo)>)
    ensures forall k :: 0 <= k < |r| ==> r[k].0 in rows && Resolve(bs, es, r[k].0.blockId) == Some(r[k].1)
    ensures forall m :: m in rows && Resolve(bs, es, m.blockId).Some? ==> exists k :: 0 <= k < |r| && r[k].0 == m
  {
    if rows == [] then []
    else
      var rest := Join(rows[1..], bs, es);
      assert forall m :: m in rows <==> m == rows[0] || m in rows[1..];
      match Resolve(bs, es, rows[0].blockId)
      case None => rest
      case Some(p) =>
        var r := [(rows[0], p)] + rest;
        assert r[0] == (rows[0], p);
        assert forall k :: 0 <= k < |rest| ==> r[k + 1] == rest[k];
        r
  }

  /** A row whose photo resolves is in the join, with that photo. */
  lemma JoinHasRow(rows: seq<Membership>, bs: seq<Block>, es: seq<EntryRow>, m: Membership)
    requires m in rows && Resolve(bs, es, m.blockId).Some?
    ensures exists k :: 0 <= k < |Join(rows, bs, es)| && Join(rows, bs, es)[k] == (m, Resolve(bs, es, m.blockId).value)
  {
    var r := Join(rows, bs, es);
    var k :| 0 <= k < |r| && r[k].0 == m;
    assert r[k] == (m, Resolve(bs, es, m.blockId).value);
  }

  /** One step of the join: the first row contributes its photo, if it has one. */
  lemma JoinStep(rows: seq<Membership>, bs: seq<Block>, es: seq<EntryRow>)
    requires rows != []
    ensures var p := Resolve(bs, es, rows[0].blockId);
      Join(rows, bs, es) == (if p.Some? then [(rows[0], p.value)] else []) + Join(rows[1..], bs, es)
  {
  }

  /** Putting a row no later than all of an ordered join in front keeps it ordered. */
  lemma OrderedCons(h: seq<(Membership, Photo)>, rest: seq<(Membership, Photo)>)
    requires |h| <= 1 && OrderedByPosition(rest)
    requires forall i, k :: 0 <= i < |h| && 0 <= k < |rest| ==> h[i].0.position <= rest[k].0.position
    ensures OrderedByPosition(h + rest)
  {
    var r := h + rest;
    forall i, j | 0 <= i < j < |r| ensures r[i].0.position <= r[j].0.position {
      assert r[j] == rest[j - |h|];
      if i >= |h| { assert r[i] == rest[i - |h|]; }
    }
  }

  /** The photos of a join are ordered by their rows' positions. */
  predicate OrderedByPosition(r: seq<(Membership, Photo)>) {
    forall i, j :: 0 <= i < j < |r| ==> r[i].0.position <= r[j].0.position
  }

  /** The join of rows all at or after `m`'s position lists its rows after `m`. */
  lemma {:induction false} JoinAfter(m: Membership, rows: seq<Membership>, bs: seq<Block>, es: seq<EntryRow>)
    requires forall k :: 0 <= k < |rows| ==> m.position <= rows[k].position
    ensures forall k :: 0 <= k < |Join(rows, bs, es)| ==> m.position <= Join(rows, bs, es)[k].0.position
  {
    var r := Join(rows, bs, es);
    forall k | 0 <= k < |r| ensures m.position <= r[k].0.position {
      assert r[k].0 in rows;
    }
  }

  /** The join keeps the order of its input rows. */
  lemma {:induction false} JoinKeepsOrder(rows: seq<Membership>, bs: seq<Block>, es: seq<EntryRow>)
    requires SortedBy(rows, MemberPosition)
    ensures OrderedByPosition(Join(rows, bs, es))
  {
    if rows != [] {
      var tail := rows[1..];
      SortedSuffix(rows, MemberPosition, 1);
      JoinKeepsOrder(tail, bs, es);
      assert forall k :: 0 <= k < |tail| ==> rows[0].position <= tail[k].position by {
        assert forall k :: 0 <= k < |tail| ==> tail[k] == rows[k + 1];
      }
      JoinAfter(rows[0], tail, bs, es);
      JoinStep(rows, bs, es);
      var p := Resolve(bs, es, rows[0].blockId);
      var h := if p.Some? then [(rows[0], p.value)] else [];
      OrderedCons(h, Join(tail, bs, es));
    }
  }

  /** Position of the row for photo `blockId` in album `albumId` (0 when there is none). */
  function PositionOf(rows: seq<Membership>, albumId: Id, blockId: Id): int {
    if rows == [] then 0
    else if rows[0].albumId == albumId && rows[0].blockId == blockId then rows[0].position
    else PositionOf(rows[1..], albumId, blockId)
  }

  /** With unique pairs, the position looked up for a row's pair is that row's. */
  lemma {:induction false} PositionOfRow(rows: seq<Membership>, m: Membership)
    requires UniquePairs(rows) && m in rows
    ensures PositionOf(rows, m.albumId, m.blockId) == m.position
  {
    assert rows == [rows[0]] + rows[1..];
    UniqueCons(rows[0], rows[1..]);
    if rows[0] != m {
      assert m in rows[1..];
      PositionOfRow(rows[1..], m);
    }
  }

  // ---------------------------------------------------------------- the standalone-photo bucket

  /** The entry an upload creates to own standalone photos. */
  function SentinelEntry(id: Id): EntryRow {
    EntryRow(id, GallerySentinelTitle, Some(SentinelDescription), Some(SentinelCreator))
  }

  /** The entries titled `'__gallery__'`, in table order. */
  function Sentinels(es: seq<EntryRow>): (r: seq<EntryRow>)
    ensures forall e :: e in r <==> e in es && e.title == GallerySentinelTitle
    ensures forall e :: multiset(r)[e] == if e.title == GallerySentinelTitle then multiset(es)[e] else 0
  {
    if es == [] then []
    else
      var init := Sentinels(es[..|es| - 1]);
      assert es == es[..|es| - 1] + [es[|es| - 1]];
      assert forall e :: e in es <==> e in es[..|es| - 1] || e == es[|es| - 1];
      assert multiset(es) == multiset(es[..|es| - 1]) + multiset{es[|es| - 1]};
      if es[|es| - 1].title == GallerySentinelTitle then init + [es[|es| - 1]] else init
  }

  /** What the sentinel lookup returns: a single-row query yields the entry
      only when exactly one matches; no match, several matches (an error for
      a single-row query) or a failed query all read as "no sentinel". */
  function FoundSentinel(es: seq<EntryRow>, lookupFailed: bool): (r: Option<Id>)
    ensures r.Some? <==> !lookupFailed && |Sentinels(es)| == 1
    ensures r.Some? ==> exists e :: e in es && e.id == r.value && e.title == GallerySentinelTitle
  {
    var s := Sentinels(es);
    if !lookupFailed && |s| == 1 then
      assert s[0] in s;
      Some(s[0].id)
    else None
  }

  /** Creating the first sentinel makes it the one every later lookup finds. */
  lemma FirstSentinelIsReused(es: seq<EntryRow>, id: Id)
    requires Sentinels(es) == []
    ensures FoundSentinel(es + [SentinelEntry(id)], false) == Some(id)
  {
    SentinelsSnoc(es, SentinelEntry(id));
  }

  /** Once two sentinels exist, no lookup finds one, and creating another
      only adds to their number. */
  lemma DuplicateSentinelsMultiply(es: seq<EntryRow>, id: Id, lookupFailed: bool)
    requires |Sentinels(es)| >= 2
    ensures FoundSentinel(es, lookupFailed).None?
    ensures |Sentinels(es + [SentinelEntry(id)])| == |Sentinels(es)| + 1
  {
    SentinelsSnoc(es, SentinelEntry(id));
  }

  /** Appending an entry adds it to the sentinels exactly when it has the
      sentinel title. */
  lemma SentinelsSnoc(es: seq<EntryRow>, e: EntryRow)
    ensures Sentinels(es + [e]) == Sentinels(es) + (if e.title == GallerySentinelTitle then [e] else [])
  {
    var es' := es + [e];
    assert es'[..|es'| - 1] == es;
  }

  /** The entry an upload files its block under: the one the lookup finds,
      else a new sentinel with id `newEntryId`, unless that insert fails
      (a failed request or an id already taken). */
  function GalleryTarget(es: seq<EntryRow>, newEntryId: Id, lookupFailed: bool, createFailed: bool): (r: Option<Id>)
    ensures r.Some? ==> exists e :: e in es + [SentinelEntry(newEntryId)] && e.id == r.value && e.title == GallerySentinelTitle
    ensures r.None? <==> FoundSentinel(es, lookupFailed).None? && (createFailed || exists e :: e in es && e.id == newEntryId)
    ensures FoundSentinel(es, lookupFailed).Some? ==> r == FoundSentinel(es, lookupFailed)
    ensures FoundSentinel(es, lookupFailed).None? && r.Some? ==> r == Some(newEntryId)
  {
    match FoundSentinel(es, lookupFailed)
    case Some(id) => Some(id)
    case None =>
      if createFailed || FindEntry(es, newEntryId).Some? then None
      else
        assert SentinelEntry(newEntryId) in es + [SentinelEntry(newEntryId)];
        Some(newEntryId)
  }

  /** The positions of the blocks of entry `entryId`. */
  function EntryPositions(bs: seq<Block>, entryId: Id): (ps: seq<int>)
    ensures forall p :: p in ps <==> exists b :: b in bs && b.entryId == entryId && b.position == p
  {
    if bs == [] then []
    else
      assert forall b :: b in bs <==> b == bs[0] || b in bs[1..];
      (if bs[0].entryId == entryId then [bs[0].position] else []) + EntryPositions(bs[1..], entryId)
  }

  function NegBlockPosition(b: Block): int { -b.position }

  /** The first row of the entry's blocks sorted by descending position, plus
      one (or 0 with no rows), is the entry's append position. */
  lemma BlockQueryNext(bs: seq<Block>, entryId: Id, sorted: seq<Block>)
    requires SortedBy(sorted, NegBlockPosition)
    requires forall b :: b in sorted <==> b in bs && b.entryId == entryId
    ensures (if |sorted| > 0 then sorted[0].position + 1 else 0) == NextPosition(EntryPositions(bs, entryId))
  {
    var ps := EntryPositions(bs, entryId);
    assert |sorted| > 0 ==> sorted[0] in sorted && sorted[0].position in ps;
    if ps != [] {
      assert NextPosition(ps) - 1 in ps;
      var b :| b in bs && b.entryId == entryId && b.position == NextPosition(ps) - 1;
      var j :| 0 <= j < |sorted| && sorted[j] == b;
      assert j == 0 || NegBlockPosition(sorted[0]) <= NegBlockPosition(sorted[j]);
    }
  }

  // ---------------------------------------------------------------- the store

  /** The four tables. `albums` is kept newest first, so the `created_at`
      descending order of the album list query is the table order. */
  class Store {
    var albums: seq<AlbumRow>
    var albumPhotos: seq<Membership>
    var blocks: seq<Block>
    var entries: seq<EntryRow>

    /** Primary keys and the membership uniqueness constraint. */
    ghost predicate Valid()
      reads this
    {
      && UniquePairs(albumPhotos)
      && UniqueIds(albums, AlbumRowId)
      && UniqueIds(blocks, BlockId)
      && UniqueIds(entries, EntryRowId)
    }

    constructor ()
      ensures Valid()
      ensures albums == [] && albumPhotos == [] && blocks == [] && entries == []
    {
      albums, albumPhotos, blocks, entries := [], [], [], [];
    }

    /** `getAlbumsForPhoto`: the albums holding photo `blockId`, each once;
        an empty list when the query fails. */
    function GetAlbumsForPhoto(blockId: Id, failed: bool): (ids: seq<Id>)
      reads this
      requires Valid()
      ensures failed ==> ids == []
      ensures !failed ==> forall a :: a in ids <==> HasPair(albumPhotos, a, blockId)
      ensures NoDup(ids)
    {
      if failed then [] else AlbumIdsOf(albumPhotos, blockId)
    }

    /** `getAlbums`: every album, newest first, with the number of its
        membership rows and its cover's content. */
    method GetAlbums(faults: AlbumListFaults) returns (r: seq<Album>)
      ensures faults.albums ==> r == []
      ensures !faults.albums ==> |r| == |albums|
      ensures !faults.albums ==> forall k :: 0 <= k < |albums| ==>
        r[k] == AlbumView(albums[k], if faults.counts then 0 else CountOf(albumPhotos, albums[k].id),
                          CoverUrl(albums[k], blocks, faults.covers))
    {
      if faults.albums { return []; }
      var photoCounts := if faults.counts then [] else albumPhotos;
      var countMap := CountByAlbum(photoCounts);
      var coverPhotoIds := CoverIds(albums);
      var covers := if faults.covers || |coverPhotoIds| == 0 then [] else BlocksWithIds(blocks, coverPhotoIds);
      var coverPhotos := CoverContents(covers);
      var rows := albums;
      r := seq(|rows|, k requires 0 <= k < |rows| =>
        AlbumView(rows[k],
                  if rows[k].id in countMap then countMap[rows[k].id] else 0,
                  match NonEmpty(rows[k].coverPhotoId)
                  case None => None
                  case Some(c) => if c in coverPhotos then Some(coverPhotos[c]) else None));
      forall k | 0 <= k < |albums|
        ensures r[k] == AlbumView(albums[k], if faults.counts then 0 else CountOf(albumPhotos, albums[k].id),
                                  CoverUrl(albums[k], blocks, faults.covers))
      {
        assert albums[k] in albums;
        match NonEmpty(albums[k].coverPhotoId)
        case None =>
        case Some(c) =>
          assert c in coverPhotoIds;
          if !faults.covers { ContentOfQuery(blocks, coverPhotoIds, c); }
      }
    }

    /** `getAlbumWithPhotos`: the album and the photos of its membership rows
        whose block and entry exist, in ascending position order; none when
        the album is missing or a query fails. */
    function GetAlbumWithPhotos(albumId: Id, faults: AlbumFaults): (r: Option<AlbumWithPhotos>)
      reads this
      requires Valid()
      ensures r.Some? <==> !faults.album && !faults.photos && FindAlbum(albums, albumId).Some?
      ensures r.Some? ==> r.value.album.id == albumId
      ensures r.Some? ==> r.value.album.photoCount == |r.value.photos|
      ensures r.Some? ==>
        r.value.album == AlbumView(FindAlbum(albums, albumId).value, |r.value.photos|,
                                   CoverUrl(FindAlbum(albums, albumId).value, blocks, faults.cover))
      ensures r.Some? ==> forall p :: p in r.value.photos ==>
        HasPair(albumPhotos, albumId, p.id) && Resolve(blocks, entries, p.id) == Some(p)
      ensures r.Some? ==> forall b :: HasPair(albumPhotos, albumId, b) && Resolve(blocks, entries, b).Some? ==>
        Resolve(blocks, entries, b).value in r.value.photos
      ensures r.Some? ==> forall i, j :: 0 <= i < j < |r.value.photos| ==>
        PositionOf(albumPhotos, albumId, r.value.photos[i].id) <= PositionOf(albumPhotos, albumId, r.value.photos[j].id)
      ensures r.Some? ==> forall i, j :: 0 <= i < j < |r.value.photos| ==> r.value.photos[i].id != r.value.photos[j].id
    {
      match FindAlbum(albums, albumId)
      case None => None
      case Some(album) =>
        if faults.album || faults.photos then None
        else
          var photos := AlbumPhotoList(albumPhotos, albumId, blocks, entries);
          JoinedPhotos(albumPhotos, albumId, blocks, entries);
          Some(AlbumWithPhotos(AlbumView(album, |photos|, CoverUrl(album, blocks, faults.cover)), photos))
    }

    /** `createAlbum`: inserts a row with a fresh id (an id already taken is
        a failed insert) and returns its view; the empty description is
        stored as null. */
    method CreateAlbum(name: string, description: Option<string>, newId: Id, now: string, failed: bool)
      returns (r: Option<Album>)
      requires Valid()
      modifies this
      ensures Valid()
      ensures albumPhotos == old(albumPhotos) && blocks == old(blocks) && entries == old(entries)
      ensures r.Some? <==> !failed && FindAlbum(old(albums), newId).None?
      ensures r.None? ==> albums == old(albums)
      ensures r.Some? ==> albums == [AlbumRow(newId, name, NonEmpty(description), None, now, now)] + old(albums)
      ensures r.Some? ==> r.value == Album(newId, name, NonEmpty(description), None, None, 0, now, now)
    {
      if failed || FindAlbum(albums, newId).Some? { return None; }
      var row := AlbumRow(newId, name, NonEmpty(description), None, now, now);
      UniqueIdsCons(row, albums, AlbumRowId);
      albums := [row] + albums;
      r := Some(Album(row.id, row.name, NonEmpty(row.description), None, None, 0, row.createdAt, row.updatedAt));
    }

    /** `updateAlbum`: an absent name leaves the name as it is (the key is
        dropped from the request), while an absent or empty description or
        cover id clears the column. Updating an id that is not there
        changes nothing and still succeeds. */
    method UpdateAlbum(id: Id, name: Option<string>, description: Option<string>, coverPhotoId: Option<Id>,
                       now: string, failed: bool) returns (ok: bool)
      requires Valid()
      modifies this
      ensures Valid()
      ensures albumPhotos == old(albumPhotos) && blocks == old(blocks) && entries == old(entries)
      ensures ok == !failed
      ensures !ok ==> albums == old(albums)
      ensures ok ==> |albums| == |old(albums)|
      ensures ok ==> forall k :: 0 <= k < |albums| ==>
        albums[k] == if old(albums)[k].id == id
                     then AlbumRow(id, if name.Some? then name.value else old(albums)[k].name,
                                   NonEmpty(description), NonEmpty(coverPhotoId), old(albums)[k].createdAt, now)
                     else old(albums)[k]
    {
      if failed { return false; }
      var rows := albums;
      albums := seq(|rows|, k requires 0 <= k < |rows| =>
        if rows[k].id == id
        then rows[k].(name := if name.Some? then name.value else rows[k].name,
                      description := NonEmpty(description),
                      coverPhotoId := NonEmpty(coverPhotoId),
                      updatedAt := now)
        else rows[k]);
      ok := true;
    }

    /** `deleteAlbum`: removes the album's row only, the other albums keeping
        their newest-first order; membership rows, blocks and entries are
        untouched. */
    method DeleteAlbum(id: Id, failed: bool) returns (ok: bool)
      requires Valid()
      modifies this
      ensures Valid()
      ensures albumPhotos == old(albumPhotos) && blocks == old(blocks) && entries == old(entries)
      ensures ok == !failed
      ensures !ok ==> albums == old(albums)
      ensures ok ==> albums == Filter(old(albums), (a: AlbumRow) => a.id != id)
      ensures ok ==> forall a :: a in albums <==> a in old(albums) && a.id != id
    {
      if failed { return false; }
      UniqueIdsFilter(albums, (a: AlbumRow) => a.id != id, AlbumRowId);
      albums := Filter(albums, (a: AlbumRow) => a.id != id);
      ok := true;
    }

    /** `addPhotoToAlbums`: an empty album list succeeds without touching
        storage; otherwise every target album gets the row for photo
        `blockId` at its append position, an existing row for the pair being
        replaced. A failed position query is read as "no rows"; the call
        fails, writing nothing, only when the upsert fails (a batch naming an
        album twice is rejected by the store, and so is a photo id with no
        `blocks` row, by the foreign key the photo embed relies on). */
    method AddPhotoToAlbums(blockId: Id, albumIds: seq<Id>, faults: AddFaults) returns (ok: bool)
      requires Valid()
      modifies this
      ensures Valid()
      ensures albums == old(albums) && blocks == old(blocks) && entries == old(entries)
      ensures albumIds == [] ==> ok && albumPhotos == old(albumPhotos)
      ensures albumIds != [] ==> ok == (!faults.upsert && NoDup(albumIds) && FindBlock(old(blocks), blockId).Some?)
      ensures !ok ==> albumPhotos == old(albumPhotos)
      ensures ok && albumIds != [] ==> albumPhotos == AddRows(old(albumPhotos), blockId, albumIds, faults.positionQuery)
    {
      if |albumIds| == 0 { return true; }
      var existingPositions := if faults.positionQuery then []
        else SortBy(Filter(albumPhotos, (m: Membership) => m.albumId in albumIds), NegPosition);
      var maxPositions := MaxPositions(existingPositions);
      var insertData := seq(|albumIds|, k requires 0 <= k < |albumIds| =>
        Membership(albumIds[k], blockId, (if albumIds[k] in maxPositions then maxPositions[albumIds[k]] else -1) + 1));
      if faults.upsert || !NoDup(albumIds) || FindBlock(blocks, blockId).None? { return false; }
      forall k | 0 <= k < |albumIds|
        ensures insertData[k] == Batch(albumPhotos, blockId, albumIds, faults.positionQuery)[k]
      {
        if !faults.positionQuery {
          QueriedPositions(albumPhotos, albumIds, albumIds[k], existingPositions);
        }
      }
      assert insertData == Batch(albumPhotos, blockId, albumIds, faults.positionQuery);
      AddRowsUnique(albumPhotos, blockId, albumIds, faults.positionQuery);
      albumPhotos := DropPairs(albumPhotos, blockId, albumIds) + insertData;
      ok := true;
    }

    /** `removePhotoFromAlbum`: deletes the rows matching both the photo and
        the album; removing a pair that is absent still succeeds. */
    method RemovePhotoFromAlbum(blockId: Id, albumId: Id, failed: bool) returns (ok: bool)
      requires Valid()
      modifies this
      ensures Valid()
      ensures albums == old(albums) && blocks == old(blocks) && entries == old(entries)
      ensures ok == !failed
      ensures !ok ==> albumPhotos == old(albumPhotos)
      ensures ok ==> albumPhotos == DropPairs(old(albumPhotos), blockId, [albumId])
    {
      if failed { return false; }
      albumPhotos := DropPairs(albumPhotos, blockId, [albumId]);
      ok := true;
    }

    /** The first step of `uploadPhotoToGallery`: the entry the lookup
        finds, or else a newly inserted `'__gallery__'` entry. */
    method GalleryEntry(newEntryId: Id, lookupFailed: bool, createFailed: bool) returns (galleryId: Option<Id>)
      requires Valid()
      modifies this
      ensures Valid()
      ensures albums == old(albums) && albumPhotos == old(albumPhotos) && blocks == old(blocks)
      ensures galleryId == GalleryTarget(old(entries), newEntryId, lookupFailed, createFailed)
      ensures entries == if FoundSentinel(old(entries), lookupFailed).None? && galleryId.Some?
                         then old(entries) + [SentinelEntry(newEntryId)] else old(entries)
    {
      galleryId := FoundSentinel(entries, lookupFailed);
      if galleryId.None? {
        if createFailed || FindEntry(entries, newEntryId).Some? { return None; }
        UniqueIdsSnoc(entries, SentinelEntry(newEntryId), EntryRowId);
        entries := entries + [SentinelEntry(newEntryId)];
        galleryId := Some(newEntryId);
      }
    }

    /** The position query of `uploadPhotoToGallery`: the entry's blocks by
        descending position, limited to one row; that row's position + 1,
        or 0 when there is none or the query fails. */
    method NextBlockPosition(entryId: Id, queryFailed: bool) returns (position: int)
      ensures position == if queryFailed then 0 else NextPosition(EntryPositions(blocks, entryId))
    {
      var existingBlocks: seq<Block> := [];
      if !queryFailed {
        var inEntry := Filter(blocks, (b: Block) => b.entryId == entryId);
        var sorted := SortBy(inEntry, NegBlockPosition);
        assert forall b :: b in sorted <==> b in multiset(sorted);
        assert forall b :: b in inEntry <==> b in multiset(inEntry);
        BlockQueryNext(blocks, entryId, sorted);
        existingBlocks := if |sorted| > 0 then sorted[..1] else [];
      }
      position := if |existingBlocks| > 0 then existingBlocks[0].position + 1 else 0;
    }

    /** The block insert of `uploadPhotoToGallery`: appends a block whose id
        is not taken. */
    method InsertBlock(block: Block)
      requires Valid() && FindBlock(blocks, block.id).None?
      modifies this
      ensures Valid()
      ensures blocks == old(blocks) + [block]
      ensures albums == old(albums) && albumPhotos == old(albumPhotos) && entries == old(entries)
    {
      assert forall y :: y in blocks ==> BlockId(y) != BlockId(block);
      UniqueIdsSnoc(blocks, block, BlockId);
      blocks := blocks + [block];
    }

    /** `uploadPhotoToGallery`: stores the file and appends an image block to
        the gallery entry at its append position. Nothing is returned if the
        entry cannot be found or created, the upload fails or the block
        insert fails; an entry created before a later failure stays. */
    method UploadPhotoToGallery(fileName: string, publicUrl: string, newEntryId: Id, newBlockId: Id,
                                now: string, faults: UploadFaults) returns (r: Option<Photo>)
      requires Valid()
      modifies this
      ensures Valid()
      ensures albums == old(albums) && albumPhotos == old(albumPhotos)
      ensures
        var target := GalleryTarget(old(entries), newEntryId, faults.lookup, faults.createEntry);
        entries == if FoundSentinel(old(entries), faults.lookup).None? && target.Some?
                   then old(entries) + [SentinelEntry(newEntryId)] else old(entries)
      ensures r.None? ==> blocks == old(blocks)
      ensures
        var target := GalleryTarget(old(entries), newEntryId, faults.lookup, faults.createEntry);
        r.Some? <==> target.Some? && !faults.upload && !faults.insertBlock && FindBlock(old(blocks), newBlockId).None?
      ensures r.Some? ==>
        var galleryId := GalleryTarget(old(entries), newEntryId, faults.lookup, faults.createEntry).value;
        var position := if faults.positionQuery then 0 else NextPosition(EntryPositions(old(blocks), galleryId));
        && blocks == old(blocks) + [Block(newBlockId, galleryId, ImageBlockType, publicUrl, Some(fileName), now, position)]
        && r.value == Photo(newBlockId, publicUrl, OrDefault(Some(fileName), DefaultPhotoName), galleryId, GalleryEntryTitle, now)
    {
      var galleryEntry := GalleryEntry(newEntryId, faults.lookup, faults.createEntry);
      if galleryEntry.None? || faults.upload { return None; }
      var galleryId := galleryEntry.value;
      var nextPosition := NextBlockPosition(galleryId, faults.positionQuery);
      if faults.insertBlock || FindBlock(blocks, newBlockId).Some? { return None; }
      var block := Block(newBlockId, galleryId, ImageBlockType, publicUrl, Some(fileName), now, nextPosition);
      InsertBlock(block);
      r := Some(Photo(block.id, block.content, OrDefault(block.fileName, DefaultPhotoName), galleryId,
                      GalleryEntryTitle, block.createdAt));
    }
  }

  /** For an album of the batch, the rows the position query returns (sorted,
      restricted to the batch's albums) give the same append position as the
      whole table. */
  lemma QueriedPositions(rows: seq<Membership>, albumIds: seq<Id>, a: Id, queried: seq<Membership>)
    requires a in albumIds
    requires queried == SortBy(Filter(rows, (m: Membership) => m.albumId in albumIds), NegPosition)
    ensures NextPosition(AlbumPositions(queried, a)) == NextPosition(AlbumPositions(rows, a))
  {
    var filtered := Filter(rows, (m: Membership) => m.albumId in albumIds);
    assert forall m :: m in queried <==> m in multiset(queried);
    assert forall m :: m in filtered <==> m in multiset(filtered);
    assert forall m :: m in queried <==> m in rows && m.albumId in albumIds;
    NextPositionOfSameElements(AlbumPositions(queried, a), AlbumPositions(rows, a));
  }

  /** The rows the album query returns are exactly the album's rows. */
  lemma AlbumQueryRows(rows: seq<Membership>, albumId: Id, sorted: seq<Membership>)
    requires sorted == SortBy(Filter(rows, (m: Membership) => m.albumId == albumId), MemberPosition)
    ensures forall m :: m in sorted <==> m in rows && m.albumId == albumId
  {
    var inAlbum := Filter(rows, (m: Membership) => m.albumId == albumId);
    assert forall m :: m in sorted <==> m in multiset(sorted);
    assert forall m :: m in inAlbum <==> m in multiset(inAlbum);
  }

  /** The photo list of the album query: its rows sorted by position, joined
      with their blocks and entries, and mapped to photos. */
  function AlbumPhotoList(rows: seq<Membership>, albumId: Id, bs: seq<Block>, es: seq<EntryRow>): seq<Photo>
  {
    var joined := Join(SortBy(Filter(rows, (m: Membership) => m.albumId == albumId), MemberPosition), bs, es);
    seq(|joined|, k requires 0 <= k < |joined| => joined[k].1)
  }

  /** The facts about the joined, sorted album query that `GetAlbumWithPhotos` promises. */
  lemma JoinedPhotos(rows: seq<Membership>, albumId: Id, bs: seq<Block>, es: seq<EntryRow>)
    requires UniquePairs(rows)
    ensures var photos := AlbumPhotoList(rows, albumId, bs, es);
      && (forall p :: p in photos ==> HasPair(rows, albumId, p.id) && Resolve(bs, es, p.id) == Some(p))
      && (forall b :: HasPair(rows, albumId, b) && Resolve(bs, es, b).Some? ==> Resolve(bs, es, b).value in photos)
      && (forall i, j :: 0 <= i < j < |photos| ==>
            PositionOf(rows, albumId, photos[i].id) <= PositionOf(rows, albumId, photos[j].id))
      && (forall i, j :: 0 <= i < j < |photos| ==> photos[i].id != photos[j].id)
  {
    var sorted := SortBy(Filter(rows, (m: Membership) => m.albumId == albumId), MemberPosition);
    var joined := Join(sorted, bs, es);
    var photos := AlbumPhotoList(rows, albumId, bs, es);
    AlbumQueryRows(rows, albumId, sorted);
    AlbumQueryNoDup(rows, albumId, sorted);
    JoinRowsDistinct(sorted, bs, es);
    JoinedPhotosBelong(rows, albumId, bs, es, sorted, joined, photos);
    JoinedPhotosComplete(rows, albumId, bs, es, sorted, joined, photos);
    JoinKeepsOrder(sorted, bs, es);
    JoinedPhotosOrdered(rows, albumId, sorted, joined, photos);
    JoinedPhotosDistinct(rows, albumId, sorted, joined, photos);
  }

  lemma JoinedPhotosBelong(rows: seq<Membership>, albumId: Id, bs: seq<Block>, es: seq<EntryRow>,
                           sorted: seq<Membership>, joined: seq<(Membership, Photo)>, photos: seq<Photo>)
    requires forall m :: m in sorted <==> m in rows && m.albumId == albumId
    requires joined == Join(sorted, bs, es)
    requires |photos| == |joined| && forall k :: 0 <= k < |joined| ==> photos[k] == joined[k].1
    ensures forall p :: p in photos ==> HasPair(rows, albumId, p.id) && Resolve(bs, es, p.id) == Some(p)
  {
    forall p | p in photos ensures HasPair(rows, albumId, p.id) && Resolve(bs, es, p.id) == Some(p) {
      var k :| 0 <= k < |photos| && photos[k] == p;
      assert joined[k].0 in sorted;
    }
  }

  lemma JoinedPhotosComplete(rows: seq<Membership>, albumId: Id, bs: seq<Block>, es: seq<EntryRow>,
                             sorted: seq<Membership>, joined: seq<(Membership, Photo)>, photos: seq<Photo>)
    requires forall m :: m in sorted <==> m in rows && m.albumId == albumId
    requires joined == Join(sorted, bs, es)
    requires |photos| == |joined| && forall k :: 0 <= k < |joined| ==> photos[k] == joined[k].1
    ensures forall b :: HasPair(rows, albumId, b) && Resolve(bs, es, b).Some? ==> Resolve(bs, es, b).value in photos
  {
    forall b | HasPair(rows, albumId, b) && Resolve(bs, es, b).Some? ensures Resolve(bs, es, b).value in photos {
      var m :| m in rows && m.albumId == albumId && m.blockId == b;
      JoinHasRow(sorted, bs, es, m);
      var k :| 0 <= k < |joined| && joined[k].0 == m;
      assert photos[k] in photos;
    }
  }

  lemma JoinedPhotosOrdered(rows: seq<Membership>, albumId: Id,
                            sorted: seq<Membership>, joined: seq<(Membership, Photo)>, photos: seq<Photo>)
    requires UniquePairs(rows)
    requires forall m :: m in sorted <==> m in rows && m.albumId == albumId
    requires |photos| == |joined| && OrderedByPosition(joined)
    requires forall k :: 0 <= k < |joined| ==> joined[k].0 in sorted && photos[k].id == joined[k].0.blockId
    ensures forall i, j :: 0 <= i < j < |photos| ==>
      PositionOf(rows, albumId, photos[i].id) <= PositionOf(rows, albumId, photos[j].id)
  {
    forall i, j | 0 <= i < j < |photos|
      ensures PositionOf(rows, albumId, photos[i].id) <= PositionOf(rows, albumId, photos[j].id)
    {
      assert joined[i].0 in sorted && joined[j].0 in sorted;
      PositionOfRow(rows, joined[i].0);
      PositionOfRow(rows, joined[j].0);
    }
  }

  /** The album's photos are all different: the album's rows name different
      blocks, and the query returns each of them once. */
  lemma JoinedPhotosDistinct(rows: seq<Membership>, albumId: Id,
                             sorted: seq<Membership>, joined: seq<(Membership, Photo)>, photos: seq<Photo>)
    requires UniquePairs(rows)
    requires forall m :: m in sorted <==> m in rows && m.albumId == albumId
    requires |photos| == |joined| && DistinctRows(joined)
    requires forall k :: 0 <= k < |joined| ==> joined[k].0 in sorted && photos[k].id == joined[k].0.blockId
    ensures forall i, j :: 0 <= i < j < |photos| ==> photos[i].id != photos[j].id
  {
    forall i, j | 0 <= i < j < |photos| ensures photos[i].id != photos[j].id {
      var m, n := joined[i].0, joined[j].0;
      assert m in sorted && n in sorted;
      if m.blockId == n.blockId {
        SameKeyIsSameRow(rows, m, n);
      }
    }
  }

  /** The album query returns no row twice. */
  lemma AlbumQueryNoDup(rows: seq<Membership>, albumId: Id, sorted: seq<Membership>)
    requires UniquePairs(rows)
    requires sorted == SortBy(Filter(rows, (m: Membership) => m.albumId == albumId), MemberPosition)
    ensures NoDup(sorted)
  {
    UniqueIsNoDup(rows);
    FilterNoDup(rows, (m: Membership) => m.albumId == albumId);
    NoDupPermutation(Filter(rows, (m: Membership) => m.albumId == albumId), sorted);
  }

  /** With unique pairs, no row occurs twice. */
  lemma UniqueIsNoDup(rows: seq<Membership>)
    requires UniquePairs(rows)
    ensures NoDup(rows)
  {
    forall i, j | 0 <= i < j < |rows| ensures rows[i] != rows[j] {
      if rows[i] == rows[j] {
        assert SameKey(rows[i], rows[j]);
      }
    }
  }

  /** With unique pairs, two rows for the same pair are the same row. */
  lemma SameKeyIsSameRow(rows: seq<Membership>, m: Membership, n: Membership)
    requires UniquePairs(rows) && m in rows && n in rows && SameKey(m, n)
    ensures m == n
  {
    var i :| 0 <= i < |rows| && rows[i] == m;
    var j :| 0 <= j < |rows| && rows[j] == n;
  }

  /** No two joined photos come from the same membership row. */
  predicate DistinctRows(r: seq<(Membership, Photo)>) {
    forall i, j :: 0 <= i < j < |r| ==> r[i].0 != r[j].0
  }

  /** Putting a row in front of a join that does not contain it keeps the rows distinct. */
  lemma DistinctCons(h: seq<(Membership, Photo)>, rest: seq<(Membership, Photo)>)
    requires |h| <= 1 && DistinctRows(rest)
    requires forall i, k :: 0 <= i < |h| && 0 <= k < |rest| ==> h[i].0 != rest[k].0
    ensures DistinctRows(h + rest)
  {
    var r := h + rest;
    forall i, j | 0 <= i < j < |r| ensures r[i].0 != r[j].0 {
      assert r[j] == rest[j - |h|];
      if i >= |h| { assert r[i] == rest[i - |h|]; }
    }
  }

  /** A row that is not among `rows` is not among the rows of their join. */
  lemma {:induction false} JoinWithout(m: Membership, rows: seq<Membership>, bs: seq<Block>, es: seq<EntryRow>)
    requires m !in rows
    ensures forall k :: 0 <= k < |Join(rows, bs, es)| ==> Join(rows, bs, es)[k].0 != m
  {
    var r := Join(rows, bs, es);
    forall k | 0 <= k < |r| ensures r[k].0 != m {
      assert r[k].0 in rows;
    }
  }

  /** Joining rows without duplicates pairs each photo with a different row. */
  lemma {:induction false} JoinRowsDistinct(rows: seq<Membership>, bs: seq<Block>, es: seq<EntryRow>)
    requires NoDup(rows)
    ensures DistinctRows(Join(rows, bs, es))
  {
    if rows != [] {
      var tail := rows[1..];
      assert NoDup(tail) && rows[0] !in tail by {
        assert forall k :: 0 <= k < |tail| ==> tail[k] == rows[k + 1];
      }
      JoinRowsDistinct(tail, bs, es);
      JoinWithout(rows[0], tail, bs, es);
      JoinStep(rows, bs, es);
      var p := Resolve(bs, es, rows[0].blockId);
      var h := if p.Some? then [(rows[0], p.value)] else [];
      DistinctCons(h, Join(tail, bs, es));
    }
  }
}
