/** The stores the controller calls: the content type store, the content
    store and the culture dictionary factory. Only the behaviour the
    controller relies on is modelled. */
module Services {
  import opened Responses
  import opened Labels
  import opened ContentTypes

  /** The content type store (`IContentTypeService`), in enumeration order.
      A save of a type whose id is stored replaces it; any other save stores a
      new record under the next free positive id. */
  class ContentTypeService {
    var contentTypes: seq<ContentType>
    var nextId: int

    /** Stored ids are positive, unique and below the next id to assign. */
    ghost predicate Valid()
      reads this
    {
      && 0 < nextId
      && (forall i :: 0 <= i < |contentTypes| ==> 0 < contentTypes[i].id < nextId)
      && UniqueIds(contentTypes)
    }

    /** An empty store; the first save gets id 1. */
    constructor ()
      ensures Valid() && contentTypes == [] && nextId == 1
    {
      contentTypes := [];
      nextId := 1;
    }

    /** `GetContentType(id)`; `None` is the null the service returns. */
    function GetContentType(id: int): Option<ContentType>
      reads this
    {
      Find(contentTypes, id)
    }

    /** `GetAllContentTypes()`. */
    function GetAllContentTypes(): seq<ContentType>
      reads this
    {
      contentTypes
    }

    /** `GetAllContentTypes(ids)`. */
    function GetAllContentTypesByIds(ids: seq<int>): seq<ContentType>
      reads this
    {
      ContentTypesByIds(contentTypes, ids)
    }

    /** `Save(contentType)`: the saved record gets a positive id and can be
        looked up under it afterwards. */
    method Save(ct: ContentType) returns (saved: ContentType)
      requires Valid()
      modifies this
      ensures Valid()
      ensures saved.id > 0 && GetContentType(saved.id) == Some(saved)
      ensures old(GetContentType(ct.id)).Some? ==>
                && saved == ct
                && contentTypes == Replace(old(contentTypes), ct)
                && nextId == old(nextId)
      ensures old(GetContentType(ct.id)).None? ==>
                && saved == ct.(id := old(nextId))
                && contentTypes == old(contentTypes) + [saved]
                && nextId == old(nextId) + 1
    {
      if GetContentType(ct.id).Some? {
        ReplaceStores(contentTypes, ct);
        contentTypes := Replace(contentTypes, ct);
        saved := ct;
      } else {
        saved := ct.(id := nextId);
        contentTypes := contentTypes + [saved];
        nextId := nextId + 1;
        FindUnique(contentTypes, |contentTypes| - 1);
      }
    }
  }

  /** The content store (`IContentService`); the controller only reads it. */
  class ContentService {
    var items: map<int, ContentItem>

    /** `GetById(id)`; `None` is the null the service returns. */
    function GetById(id: int): Option<ContentItem>
      reads this
    {
      if id in items then Some(items[id]) else None
    }
  }

  /** The process-wide culture dictionary factory; `current` is the
      dictionary it creates for the culture in effect. */
  class CultureDictionaryFactory {
    var current: CultureDictionary

    /** `CreateDictionary()`. */
    method CreateDictionary() returns (d: CultureDictionary)
      ensures d == current
    {
      d := current;
    }
  }
}
