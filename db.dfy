/** The persisted image store: an `images` table of uploaded creature pictures and an
    `apikeys` table of issued API keys. Each table is an ordered sequence of rows; each
    operation is the one SQL statement the store runs, stated as a sequence operation. */
module Db {
  import opened Sql

  /** A row of `images(creature, imageID, userID, time, ranking, voted)`. */
  datatype Image = Image(creature: string, imageId: string, userId: int, time: int, ranking: int, voted: int)

  /** A row of `apikeys(key, userID, name, time)`. */
  datatype ApiKey = ApiKey(key: string, userId: int, name: string, time: int)

  datatype Option<T> = None | Some(value: T)

  /** What `api_key_access` hands back: one of its two error strings, the overflow error
      raised when a parameter cannot be bound, or the fetched rows. */
  datatype AccessResult = InvalidApiKey | InvalidRequest | BindError | Rows(rows: seq<Image>)

  /** The only request kind `api_key_access` serves. */
  const GetImageData: string := "get_image_data"

  /** `SELECT * FROM apikeys WHERE key=?` followed by a test that a row was fetched. */
  function KeyExists(keys: seq<ApiKey>, key: string): (valid: bool)
    ensures valid <==> exists i :: 0 <= i < |keys| && keys[i].key == key
  {
    if keys == [] then false
    else if keys[0].key == key then true
    else
      var rest := KeyExists(keys[1..], key);
      assert forall i :: 0 < i < |keys| ==> keys[i] == keys[1..][i - 1];
      rest
  }

  /** `SELECT creature FROM images WHERE imageID=?` with `fetchone()`: the creature of
      the first row, in table order, that holds the image id, or `None`. */
  function CreatureOf(images: seq<Image>, imageId: string): (creature: Option<string>)
    ensures creature.None? <==> forall i :: 0 <= i < |images| ==> images[i].imageId != imageId
    ensures creature.Some? ==>
      exists i :: 0 <= i < |images| && images[i].imageId == imageId && images[i].creature == creature.value
                  && forall j :: 0 <= j < i ==> images[j].imageId != imageId
  {
    if images == [] then None
    else if images[0].imageId == imageId then Some(images[0].creature)
    else
      var rest := CreatureOf(images[1..], imageId);
      assert forall i :: 0 < i < |images| ==> images[i] == images[1..][i - 1];
      rest
  }

  /** `SELECT imageID FROM images`, projected to a list: one id per row, in table order. */
  function ImageIdColumn(images: seq<Image>): (ids: seq<string>)
    ensures |ids| == |images|
    ensures forall i :: 0 <= i < |images| ==> ids[i] == images[i].imageId
  {
    if images == [] then [] else [images[0].imageId] + ImageIdColumn(images[1..])
  }

  /** The `apikeys` table left by `DELETE FROM apikeys WHERE userID=?`. */
  function WithoutUser(keys: seq<ApiKey>, userId: int): (kept: seq<ApiKey>)
    ensures forall k :: k in kept <==> k in keys && k.userId != userId
  {
    Where(keys, (k: ApiKey) => k.userId != userId)
  }

  /** The WHERE clause of the `get_image_data` query:
      `? IN (creature, '') OR ? IN (imageID, '') OR ? IN (userID, '')`,
      bound to the three request parameters in that order. */
  function ImageDataMatches(row: Image, creature: Value, imageId: Value, userId: Value): (holds: bool)
    ensures creature == Null && imageId == Null && userId == Null ==> !holds
    ensures creature == Text("") || imageId == Text("") || userId == Text("") ==> holds
  {
    InPair(creature, Text(row.creature), Text(""))
    || InPair(imageId, Text(row.imageId), Text(""))
    || InPair(userId, Integer(row.userId), Text(""))
  }

  /** The rows the `get_image_data` query fetches, in table order. */
  function ImageData(images: seq<Image>, creature: Value, imageId: Value, userId: Value): (rows: seq<Image>)
    ensures forall row :: row in rows <==> row in images && ImageDataMatches(row, creature, imageId, userId)
  {
    Where(images, (row: Image) => ImageDataMatches(row, creature, imageId, userId))
  }

  /** `api_key_access`: reject an unknown key, then serve only `get_image_data`, whose
      query fails when one of its three parameters cannot be bound. */
  function Access(images: seq<Image>, keys: seq<ApiKey>, key: string, request: string,
                  creature: Value, imageId: Value, userId: Value): (result: AccessResult)
    ensures result == InvalidApiKey <==> forall i :: 0 <= i < |keys| ==> keys[i].key != key
    ensures result == InvalidRequest <==>
      (exists i :: 0 <= i < |keys| && keys[i].key == key) && request != GetImageData
    ensures result == BindError <==>
      (exists i :: 0 <= i < |keys| && keys[i].key == key) && request == GetImageData
      && !(Bindable(creature) && Bindable(imageId) && Bindable(userId))
    ensures result.Rows? ==> result.rows == ImageData(images, creature, imageId, userId)
  {
    if !KeyExists(keys, key) then InvalidApiKey
    else if request != GetImageData then InvalidRequest
    else if !(Bindable(creature) && Bindable(imageId) && Bindable(userId)) then BindError
    else Rows(ImageData(images, creature, imageId, userId))
  }

  /** The store itself. Its invariant is the one the ranking columns are meant to keep. */
  class Database {
    var images: seq<Image>
    var apikeys: seq<ApiKey>

    /** Every image row has `0 <= ranking <= voted`. */
    ghost predicate Valid()
      reads this
    {
      forall i :: 0 <= i < |images| ==> 0 <= images[i].ranking <= images[i].voted
    }

    /** Both tables exist and are empty. */
    constructor ()
      ensures Valid()
      ensures images == [] && apikeys == []
    {
      images := [];
      apikeys := [];
    }

    /** `INSERT INTO images VALUES (?, ?, ?, ?, 0, 0)`, stamped with `now`. When an
        integer parameter cannot be bound the statement raises and nothing is inserted;
        `bound` tells the two outcomes apart. */
    method AddImage(creature: string, imageId: string, userId: int, now: int) returns (bound: bool)
      requires Valid()
      modifies this
      ensures Valid()
      ensures bound <==> Bindable(Integer(userId)) && Bindable(Integer(now))
      ensures images == if bound then old(images) + [Image(creature, imageId, userId, now, 0, 0)] else old(images)
      ensures apikeys == old(apikeys)
    {
      bound := Bindable(Integer(userId)) && Bindable(Integer(now));
      if bound {
        images := images + [Image(creature, imageId, userId, now, 0, 0)];
      }
    }

    /** `INSERT INTO apikeys VALUES (?, ?, ?, ?)`, stamped with `now`; nothing is
        inserted when an integer parameter cannot be bound. */
    method AddApiKey(key: string, userId: int, name: string, now: int) returns (bound: bool)
      requires Valid()
      modifies this
      ensures Valid()
      ensures bound <==> Bindable(Integer(userId)) && Bindable(Integer(now))
      ensures apikeys == if bound then old(apikeys) + [ApiKey(key, userId, name, now)] else old(apikeys)
      ensures images == old(images)
    {
      bound := Bindable(Integer(userId)) && Bindable(Integer(now));
      if bound {
        apikeys := apikeys + [ApiKey(key, userId, name, now)];
      }
    }

    /** `DELETE FROM apikeys WHERE userID=?`; nothing is deleted when the user id
        cannot be bound. */
    method RevokeApiKeys(userId: int) returns (bound: bool)
      requires Valid()
      modifies this
      ensures Valid()
      ensures bound <==> Bindable(Integer(userId))
      ensures apikeys == if bound then WithoutUser(old(apikeys), userId) else old(apikeys)
      ensures bound ==> forall i :: 0 <= i < |apikeys| ==> apikeys[i].userId != userId
      ensures images == old(images)
    {
      bound := Bindable(Integer(userId));
      if bound {
        apikeys := WithoutUser(apikeys, userId);
        assert forall i :: 0 <= i < |apikeys| ==> apikeys[i] in apikeys;
      }
    }

    /** `verify_apikey` on the current `apikeys` table. */
    function VerifyApiKey(key: string): (valid: bool)
      reads this
      ensures valid <==> exists i :: 0 <= i < |apikeys| && apikeys[i].key == key
    {
      KeyExists(apikeys, key)
    }

    /** `get_creature` on the current `images` table. */
    function GetCreature(imageId: string): (creature: Option<string>)
      reads this
      ensures creature.None? <==> forall i :: 0 <= i < |images| ==> images[i].imageId != imageId
      ensures creature.Some? ==>
        exists i :: 0 <= i < |images| && images[i].imageId == imageId && images[i].creature == creature.value
                    && forall j :: 0 <= j < i ==> images[j].imageId != imageId
    {
      CreatureOf(images, imageId)
    }

    /** `get_all_image_ids` on the current `images` table. */
    function GetAllImageIds(): (ids: seq<string>)
      reads this
      ensures |ids| == |images|
      ensures forall i :: 0 <= i < |images| ==> ids[i] == images[i].imageId
    {
      ImageIdColumn(images)
    }

    /** `api_key_access` on the current tables. The absent keyword arguments of the
        Python function default to `''`, which a caller passes here as `Text("")`. */
    function ApiKeyAccess(key: string, request: string, creature: Value, imageId: Value, userId: Value): (result: AccessResult)
      reads this
      ensures result == InvalidApiKey <==> forall i :: 0 <= i < |apikeys| ==> apikeys[i].key != key
      ensures result == InvalidRequest <==> VerifyApiKey(key) && request != GetImageData
      ensures result == BindError <==>
        VerifyApiKey(key) && request == GetImageData
        && !(Bindable(creature) && Bindable(imageId) && Bindable(userId))
      ensures result.Rows? ==> result.rows == ImageData(images, creature, imageId, userId)
      // A convenience corollary of the line above and `ImageData`'s contract.
      ensures result.Rows? ==>
        forall row :: row in result.rows <==> row in images && ImageDataMatches(row, creature, imageId, userId)
    {
      Access(images, apikeys, key, request, creature, imageId, userId)
    }
  }

  /** Once a user's keys are revoked, a key that only that user held no longer verifies. */
  lemma RevokedKeyFails(keys: seq<ApiKey>, userId: int, key: string)
    requires forall i :: 0 <= i < |keys| && keys[i].key == key ==> keys[i].userId == userId
    ensures !KeyExists(WithoutUser(keys, userId), key)
  {
    var kept := WithoutUser(keys, userId);
    forall i | 0 <= i < |kept| ensures kept[i].key != key {
      assert kept[i] in kept;
      var j :| 0 <= j < |keys| && keys[j] == kept[i];
    }
  }

  /** Revoking one user's keys leaves valid every key that another user also holds. */
  lemma RevokeKeepsOtherUsersKeys(keys: seq<ApiKey>, userId: int, key: string, i: int)
    requires 0 <= i < |keys| && keys[i].key == key && keys[i].userId != userId
    ensures KeyExists(WithoutUser(keys, userId), key)
  {
    var kept := WithoutUser(keys, userId);
    assert keys[i] in kept;
    var j :| 0 <= j < |kept| && kept[j] == keys[i];
  }

  /** Revocation keeps each other user's row exactly as often as it occurred and
      drops every row of the revoked user. */
  lemma RevokeCount(keys: seq<ApiKey>, userId: int, k: ApiKey)
    ensures multiset(WithoutUser(keys, userId))[k] == if k.userId != userId then multiset(keys)[k] else 0
  {
    WhereCount(keys, (k: ApiKey) => k.userId != userId, k);
  }

  /** Revoking the keys of a user who holds none leaves the table as it was, order included. */
  lemma RevokeAbsentUser(keys: seq<ApiKey>, userId: int)
    requires forall i :: 0 <= i < |keys| ==> keys[i].userId != userId
    ensures WithoutUser(keys, userId) == keys
  {
    WhereKeepsAll(keys, (k: ApiKey) => k.userId != userId);
  }

  /** Revocation of a table made of two parts revokes in each part, keeping their order. */
  lemma RevokeInOrder(keys: seq<ApiKey>, more: seq<ApiKey>, userId: int)
    ensures WithoutUser(keys + more, userId) == WithoutUser(keys, userId) + WithoutUser(more, userId)
  {
    WhereAppend(keys, more, (k: ApiKey) => k.userId != userId);
  }

  /** Revoking twice is the same as revoking once. */
  lemma RevokeIdempotent(keys: seq<ApiKey>, userId: int)
    ensures WithoutUser(WithoutUser(keys, userId), userId) == WithoutUser(keys, userId)
  {
    WhereIdempotent(keys, (k: ApiKey) => k.userId != userId);
  }

  /** A key just issued by `add_apikey` verifies. */
  lemma IssuedKeyVerifies(keys: seq<ApiKey>, key: string, userId: int, name: string, now: int)
    ensures KeyExists(keys + [ApiKey(key, userId, name, now)], key)
  {
    var added := keys + [ApiKey(key, userId, name, now)];
    assert added[|keys|].key == key;
  }

  /** After `add_image`, `get_creature` is unchanged for an id already present, and
      finds the new row's creature for an id that was absent. */
  lemma {:induction false} CreatureAfterAdd(images: seq<Image>, row: Image, imageId: string)
    ensures CreatureOf(images + [row], imageId) ==
      if CreatureOf(images, imageId).Some? then CreatureOf(images, imageId)
      else if row.imageId == imageId then Some(row.creature)
      else None
  {
    if images != [] {
      assert (images + [row])[1..] == images[1..] + [row];
      CreatureAfterAdd(images[1..], row, imageId);
    } else {
      assert images + [row] == [row];
    }
  }

  /** After `add_image`, `get_all_image_ids` gains the new id at the end. */
  lemma ImageIdsAfterAdd(images: seq<Image>, row: Image)
    ensures ImageIdColumn(images + [row]) == ImageIdColumn(images) + [row.imageId]
  {
    var after := ImageIdColumn(images + [row]);
    assert (images + [row])[|images|] == row;
  }

  /** After `add_image`, `get_image_data` returns what it did before, followed by the
      new row when the new row meets the filter. */
  lemma ImageDataAfterAdd(images: seq<Image>, row: Image, creature: Value, imageId: Value, userId: Value)
    ensures ImageData(images + [row], creature, imageId, userId) ==
      ImageData(images, creature, imageId, userId)
      + (if ImageDataMatches(row, creature, imageId, userId) then [row] else [])
  {
    var keep := (r: Image) => ImageDataMatches(r, creature, imageId, userId);
    WhereAppend(images, [row], keep);
    assert Where([row], keep) == if keep(row) then [row] else [];
  }

  /** Because the three tests are joined by OR, a `''` in any one parameter makes the
      query return the whole `images` table, in order. */
  lemma EmptyParameterSelectsAll(images: seq<Image>, creature: Value, imageId: Value, userId: Value)
    requires creature == Text("") || imageId == Text("") || userId == Text("")
    ensures ImageData(images, creature, imageId, userId) == images
  {
    WhereKeepsAll(images, (r: Image) => ImageDataMatches(r, creature, imageId, userId));
  }

  /** A parameter left out of the request arrives as NULL and matches no row; with all
      three left out the query returns nothing. */
  lemma AbsentParametersSelectNothing(images: seq<Image>)
    ensures ImageData(images, Null, Null, Null) == []
  {
    WhereDropsAll(images, (r: Image) => ImageDataMatches(r, Null, Null, Null));
  }

  /** The query returns each matching row exactly as often as the table holds it. */
  lemma ImageDataCount(images: seq<Image>, creature: Value, imageId: Value, userId: Value, row: Image)
    ensures multiset(ImageData(images, creature, imageId, userId))[row] ==
      if ImageDataMatches(row, creature, imageId, userId) then multiset(images)[row] else 0
  {
    WhereCount(images, (r: Image) => ImageDataMatches(r, creature, imageId, userId), row);
  }

  /** A caller whose only key belonged to a revoked user is turned away by `api_key_access`. */
  lemma AccessDeniedAfterRevoke(images: seq<Image>, keys: seq<ApiKey>, userId: int, key: string,
                                request: string, creature: Value, imageId: Value, userId': Value)
    requires forall i :: 0 <= i < |keys| && keys[i].key == key ==> keys[i].userId == userId
    ensures Access(images, WithoutUser(keys, userId), key, request, creature, imageId, userId') == InvalidApiKey
  {
    RevokedKeyFails(keys, userId, key);
  }

  /** With a valid key, a `get_image_data` request with a `''` parameter reads the whole
      table, unless another parameter is an integer too wide to bind. */
  lemma AccessWildcardReadsAll(images: seq<Image>, keys: seq<ApiKey>, key: string,
                               creature: Value, imageId: Value, userId: Value)
    requires KeyExists(keys, key)
    requires creature == Text("") || imageId == Text("") || userId == Text("")
    ensures Access(images, keys, key, GetImageData, creature, imageId, userId) ==
      if Bindable(creature) && Bindable(imageId) && Bindable(userId) then Rows(images) else BindError
  {
    EmptyParameterSelectsAll(images, creature, imageId, userId);
  }
}
