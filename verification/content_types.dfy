/** Content types, content items and the shapes the controller maps them to,
    with the field-by-field maps between them. */
module ContentTypes {
  import opened Responses
  import opened Labels

  /** A persisted content type (`IContentType`). `id` is 0 until the store
      assigns one; `allowedChildIds` are the ids of `AllowedContentTypes`. */
  datatype ContentType = ContentType(
    id: int,
    parentId: int,
    alias: string,
    name: Option<string>,
    description: Option<string>,
    allowedAsRoot: bool,
    allowedChildIds: seq<int>)

  /** A content node (`IContent`); the controller reads only its content type. */
  datatype ContentItem = ContentItem(id: int, contentType: ContentType)

  /** The list view of a content type (`ContentTypeBasic`). */
  datatype ContentTypeBasic = ContentTypeBasic(
    id: int,
    parentId: int,
    alias: string,
    name: Option<string>,
    description: Option<string>)

  /** The editor view of a content type (`ContentTypeDisplay`), which is also
      the shape a client submits; its `Id` may be null. */
  datatype ContentTypeDisplay = ContentTypeDisplay(
    id: Option<int>,
    parentId: int,
    alias: string,
    name: Option<string>,
    description: Option<string>,
    allowedAsRoot: bool,
    allowedChildIds: seq<int>)

  /** `Convert.ToInt32` of the submitted id: null converts to 0. */
  function ToInt32(id: Option<int>): (r: int)
    ensures id.None? ==> r == 0
    ensures id.Some? ==> r == id.value
  {
    if id.Some? then id.value else 0
  }

  /** A submission with a positive id is an update of an existing type. */
  predicate IsUpdate(d: ContentTypeDisplay)
    ensures IsUpdate(d) <==> d.id.Some? && d.id.value > 0
  {
    ToInt32(d.id) > 0
  }

  /** `new ContentType(parentId)`: an unsaved type with no identity yet. */
  function NewContentType(parentId: int): (ct: ContentType)
    ensures ct.id == 0 && ct.parentId == parentId
    ensures ct.alias == "" && ct.name == None && ct.description == None
    ensures !ct.allowedAsRoot && ct.allowedChildIds == []
  {
    ContentType(0, parentId, "", None, None, false, [])
  }

  /** `Mapper.Map<IContentType, ContentTypeBasic>`. */
  function ToBasic(ct: ContentType): (b: ContentTypeBasic)
    ensures b.id == ct.id && b.parentId == ct.parentId && b.alias == ct.alias
    ensures b.name == ct.name && b.description == ct.description
  {
    ContentTypeBasic(ct.id, ct.parentId, ct.alias, ct.name, ct.description)
  }

  /** `Mapper.Map<IContentType, ContentTypeDisplay>` (also the map back onto
      the submission after a save). */
  function ToDisplay(ct: ContentType): (d: ContentTypeDisplay)
    ensures d.id == Some(ct.id) && (IsUpdate(d) <==> ct.id > 0)
    ensures d.parentId == ct.parentId && d.alias == ct.alias
    ensures d.name == ct.name && d.description == ct.description
    ensures d.allowedAsRoot == ct.allowedAsRoot && d.allowedChildIds == ct.allowedChildIds
  {
    ContentTypeDisplay(Some(ct.id), ct.parentId, ct.alias, ct.name, ct.description,
                       ct.allowedAsRoot, ct.allowedChildIds)
  }

  /** `Mapper.Map(display, found)`: the submitted fields overwrite the found
      type's; its identity is kept. */
  function MergeOnto(d: ContentTypeDisplay, found: ContentType): (ct: ContentType)
    ensures ct.id == found.id
    ensures ToDisplay(ct) == d.(id := Some(found.id))
  {
    found.(parentId := d.parentId, alias := d.alias, name := d.name, description := d.description,
           allowedAsRoot := d.allowedAsRoot, allowedChildIds := d.allowedChildIds)
  }

  /** `Mapper.Map<IContentType>(display)`: a new type built from a submission. */
  function NewFromDisplay(d: ContentTypeDisplay): (ct: ContentType)
    ensures ct.id == ToInt32(d.id) && (ct.id <= 0 <==> !IsUpdate(d))
    ensures ToDisplay(ct) == d.(id := Some(ToInt32(d.id)))
  {
    MergeOnto(d, NewContentType(d.parentId)).(id := ToInt32(d.id))
  }

  /** The create branch's preparation of a submission: an empty alias is
      derived from the name by the safe-alias transform, and the id is cleared. */
  function PrepareCreate(d: ContentTypeDisplay, toSafeAlias: Option<string> -> string): (p: ContentTypeDisplay)
    ensures p.id == None && !IsUpdate(p)
    ensures d.alias != "" ==> p.alias == d.alias
    ensures d.alias == "" ==> p.alias == toSafeAlias(d.name)
    ensures p.(id := d.id, alias := d.alias) == d
  {
    var alias := if d.alias == "" then toSafeAlias(d.name) else d.alias;
    d.(alias := alias, id := None)
  }

  /** Preparing a prepared submission again changes nothing: a derived alias
      is kept, and an empty derived alias is derived again to the same value. */
  lemma PrepareCreateIdempotent(d: ContentTypeDisplay, toSafeAlias: Option<string> -> string)
    ensures PrepareCreate(PrepareCreate(d, toSafeAlias), toSafeAlias) == PrepareCreate(d, toSafeAlias)
  {
  }

  /** An update maps back to exactly what was submitted: every mapped field of
      the submission is stored, and the identity matches. */
  lemma UpdateRoundTrip(d: ContentTypeDisplay, found: ContentType)
    requires d.id == Some(found.id)
    ensures ToDisplay(MergeOnto(d, found)) == d
  {
  }

  /** A created type maps back to its submission with the assigned id filled in. */
  lemma CreateRoundTrip(p: ContentTypeDisplay, newId: int)
    ensures ToDisplay(NewFromDisplay(p).(id := newId)) == p.(id := Some(newId))
  {
  }

  /** Submitting a stored type's own view with only a new description changes
      only the description (the alias in particular stays as it was). */
  lemma UpdateChangesOnlySubmittedFields(found: ContentType, description: Option<string>)
    ensures MergeOnto(ToDisplay(found).(description := description), found)
            == found.(description := description)
  {
  }

  /** The name and description of a list entry replaced by their translations. */
  function TranslateBasic(b: ContentTypeBasic, d: CultureDictionary): (r: ContentTypeBasic)
    ensures r.name == Translate(d, b.name) && r.description == Translate(d, b.description)
    ensures r.(name := b.name, description := b.description) == b
  {
    b.(name := Translate(d, b.name), description := Translate(d, b.description))
  }

  /** Translate-each over a list of entries (`Select` in `GetAll`). */
  function TranslateAll(bs: seq<ContentTypeBasic>, d: CultureDictionary): (r: seq<ContentTypeBasic>)
    ensures |r| == |bs|
    ensures forall i :: 0 <= i < |bs| ==>
              r[i].name == Translate(d, bs[i].name) && r[i].description == Translate(d, bs[i].description)
    ensures forall i :: 0 <= i < |bs| ==>
              r[i].(name := bs[i].name, description := bs[i].description) == bs[i]
  {
    if bs == [] then [] else [TranslateBasic(bs[0], d)] + TranslateAll(bs[1..], d)
  }

  /** The list entries of a sequence of types (`Select(Mapper.Map<…>)`). */
  function ToBasics(types: seq<ContentType>): (r: seq<ContentTypeBasic>)
    ensures |r| == |types| && forall i :: 0 <= i < |types| ==> r[i] == ToBasic(types[i])
  {
    if types == [] then [] else [ToBasic(types[0])] + ToBasics(types[1..])
  }

  /** No two stored types share an id. */
  ghost predicate UniqueIds(types: seq<ContentType>) {
    forall i, j :: 0 <= i < j < |types| ==> types[i].id != types[j].id
  }

  /** The store's lookup by id (`GetContentType`): the first type with that
      id, or null when there is none. */
  function Find(types: seq<ContentType>, id: int): (r: Option<ContentType>)
    ensures r.None? <==> forall i :: 0 <= i < |types| ==> types[i].id != id
    ensures r.Some? ==> exists i :: 0 <= i < |types| && types[i] == r.value && r.value.id == id
                                    && forall j :: 0 <= j < i ==> types[j].id != id
  {
    if types == [] then None
    else if types[0].id == id then Some(types[0])
    else Find(types[1..], id)
  }

  /** `GetAllContentTypes(ids)`: the stored type for each id, in the order of
      `ids`; an id with no stored type contributes nothing. */
  function ContentTypesByIds(types: seq<ContentType>, ids: seq<int>): (r: seq<ContentType>)
    ensures |r| <= |ids|
    ensures forall t :: t in r ==> t in types && t.id in ids
  {
    if ids == [] then []
    else
      var rest := ContentTypesByIds(types, ids[1..]);
      match Find(types, ids[0])
      case Some(t) => [t] + rest
      case None => rest
  }

  /** Every requested id that is stored contributes its type. */
  lemma {:induction false} ContentTypesByIdsComplete(types: seq<ContentType>, ids: seq<int>, i: nat)
    requires i < |ids| && Find(types, ids[i]).Some?
    ensures Find(types, ids[i]).value in ContentTypesByIds(types, ids)
  {
    if i > 0 {
      ContentTypesByIdsComplete(types, ids[1..], i - 1);
    }
  }

  /** A type appears no more often than its id is requested. */
  lemma {:induction false} ContentTypesByIdsAtMostOncePerId(types: seq<ContentType>, ids: seq<int>, t: ContentType)
    ensures multiset(ContentTypesByIds(types, ids))[t] <= multiset(ids)[t.id]
  {
    if ids != [] {
      ContentTypesByIdsAtMostOncePerId(types, ids[1..], t);
      var rest := ContentTypesByIds(types, ids[1..]);
      assert ids == [ids[0]] + ids[1..];
      assert multiset(ids) == multiset{ids[0]} + multiset(ids[1..]);
      if Find(types, ids[0]).Some? {
        var u := Find(types, ids[0]).value;
        assert multiset([u] + rest) == multiset{u} + multiset(rest);
      }
    }
  }

  /** When every requested id is stored, the result has one type per id, in
      the requested order. */
  lemma {:induction false} ContentTypesByIdsInOrder(types: seq<ContentType>, ids: seq<int>)
    requires forall i :: 0 <= i < |ids| ==> Find(types, ids[i]).Some?
    ensures |ContentTypesByIds(types, ids)| == |ids|
    ensures forall i :: 0 <= i < |ids| ==> ContentTypesByIds(types, ids)[i] == Find(types, ids[i]).value
  {
    if ids != [] {
      ContentTypesByIdsInOrder(types, ids[1..]);
      var rest := ContentTypesByIds(types, ids[1..]);
      assert ContentTypesByIds(types, ids) == [Find(types, ids[0]).value] + rest;
    }
  }

  /** With unique ids, a lookup finds the one type carrying that id. */
  lemma FindUnique(types: seq<ContentType>, k: nat)
    requires UniqueIds(types) && k < |types|
    ensures Find(types, types[k].id) == Some(types[k])
  {
  }

  /** The stored sequence with the type whose id is `ct.id` replaced by `ct`;
      every position keeps its id. */
  function Replace(types: seq<ContentType>, ct: ContentType): (r: seq<ContentType>)
    ensures |r| == |types| && forall i :: 0 <= i < |types| ==> r[i].id == types[i].id
  {
    seq(|types|, i requires 0 <= i < |types| => if types[i].id == ct.id then ct else types[i])
  }

  /** Replacing keeps the lookup of every other id as it was. */
  lemma ReplaceKeepsOthers(types: seq<ContentType>, ct: ContentType, id: int)
    requires UniqueIds(types) && id != ct.id
    ensures Find(Replace(types, ct), id) == Find(types, id)
  {
    var r := Replace(types, ct);
    assert UniqueIds(r);
    if Find(types, id).Some? {
      var j :| 0 <= j < |types| && types[j] == Find(types, id).value;
      FindUnique(types, j);
      assert r[j] == types[j];
      FindUnique(r, j);
    }
  }

  /** Replacing a stored type keeps ids unique, makes the lookup of its id
      return the new record and leaves every other lookup as it was. */
  lemma ReplaceStores(types: seq<ContentType>, ct: ContentType)
    requires UniqueIds(types) && Find(types, ct.id).Some?
    ensures UniqueIds(Replace(types, ct))
    ensures Find(Replace(types, ct), ct.id) == Some(ct)
    ensures forall id :: id != ct.id ==> Find(Replace(types, ct), id) == Find(types, id)
  {
    var r := Replace(types, ct);
    var k :| 0 <= k < |types| && types[k] == Find(types, ct.id).value;
    assert r[k] == ct;
    FindUnique(r, k);
    forall id | id != ct.id
      ensures Find(r, id) == Find(types, id)
    {
      ReplaceKeepsOthers(types, ct, id);
    }
  }
}
