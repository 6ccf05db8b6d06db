/** The content type API controller: listing, fetching, creating and updating
    content types, and the types allowed under a placement context, with every
    outward name and description passed through label translation. */
module Controller {
  import opened Responses
  import opened Labels
  import opened ContentTypes
  import opened Placement
  import opened Services

  class ContentTypeController {
    const contentTypeService: ContentTypeService
    const contentService: ContentService
    const dictionaryFactory: CultureDictionaryFactory

    /** The culture dictionary, created on first use and then kept. */
    var cultureDictionary: Option<CultureDictionary>
    /** How many dictionaries this instance has asked the factory for. */
    ghost var dictionariesCreated: nat

    /** The dictionary is created at most once, and exactly when it is cached. */
    ghost predicate Valid()
      reads this, contentTypeService
    {
      && dictionariesCreated == (if cultureDictionary.Some? then 1 else 0)
      && contentTypeService.Valid()
    }

    /** The dictionary translation uses: the cached one, or else the one the
        factory would create now. */
    function ActiveDictionary(): CultureDictionary
      reads this, dictionaryFactory
    {
      if cultureDictionary.Some? then cultureDictionary.value else dictionaryFactory.current
    }

    /** A cached dictionary is never replaced, and the dictionary in effect is
        the one that was in effect before. */
    twostate predicate DictionaryKept()
      reads this, dictionaryFactory
    {
      && (old(cultureDictionary).Some? ==> cultureDictionary == old(cultureDictionary))
      && ActiveDictionary() == old(ActiveDictionary())
    }

    constructor (contentTypeService: ContentTypeService, contentService: ContentService,
                 dictionaryFactory: CultureDictionaryFactory)
      requires contentTypeService.Valid()
      ensures Valid()
      ensures this.contentTypeService == contentTypeService && this.contentService == contentService
      ensures this.dictionaryFactory == dictionaryFactory
      ensures cultureDictionary == None && dictionariesCreated == 0
    {
      this.contentTypeService := contentTypeService;
      this.contentService := contentService;
      this.dictionaryFactory := dictionaryFactory;
      cultureDictionary := None;
      dictionariesCreated := 0;
    }

    /** The `CultureDictionary` property: the first access creates and caches
        the dictionary, later accesses return the cached one. */
    method GetCultureDictionary() returns (d: CultureDictionary)
      requires Valid()
      modifies this
      ensures Valid() && DictionaryKept()
      ensures d == old(ActiveDictionary()) && cultureDictionary == Some(d)
      ensures old(cultureDictionary).Some? ==> dictionariesCreated == old(dictionariesCreated)
      ensures dictionariesCreated <= 1
    {
      if cultureDictionary.None? {
        var created := dictionaryFactory.CreateDictionary();
        cultureDictionary := Some(created);
        dictionariesCreated := dictionariesCreated + 1;
      }
      d := cultureDictionary.value;
    }

    /** `TranslateItem`: only a marked label touches the dictionary. */
    method TranslateItem(text: Option<string>) returns (r: Option<string>)
      requires Valid()
      modifies this
      ensures Valid() && DictionaryKept()
      ensures r == Translate(old(ActiveDictionary()), text)
      ensures !IsMarked(text) ==> unchanged(this)
    {
      if text.None? {
        return None;
      }
      if !IsMarked(text) {
        return text;
      }
      var key := text.value[1..];
      var d := GetCultureDictionary();
      r := Some(IfNullOrWhiteSpace(Lookup(d, key), key));
    }

    /** Overwrites the name and description of each list entry with their
        translations, one entry at a time. */
    method TranslateInPlace(basics: array<ContentTypeBasic>)
      requires Valid()
      modifies this, basics
      ensures Valid() && DictionaryKept()
      ensures basics[..] == TranslateAll(old(basics[..]), old(ActiveDictionary()))
    {
      for i := 0 to basics.Length
        invariant Valid() && DictionaryKept()
        invariant forall k :: 0 <= k < i ==> basics[k] == TranslateBasic(old(basics[k]), old(ActiveDictionary()))
        invariant forall k :: i <= k < basics.Length ==> basics[k] == old(basics[k])
      {
        var name := TranslateItem(basics[i].name);
        var description := TranslateItem(basics[i].description);
        basics[i] := basics[i].(name := name, description := description);
      }
      ghost var expected := TranslateAll(old(basics[..]), old(ActiveDictionary()));
      assert forall k :: 0 <= k < basics.Length ==> basics[k] == expected[k];
    }

    /** `GetById`: the view of the stored type with that id, or NotFound. */
    method GetById(id: int) returns (r: Response<ContentTypeDisplay>)
      ensures r.NotFound? <==>
                forall i :: 0 <= i < |contentTypeService.contentTypes| ==> contentTypeService.contentTypes[i].id != id
      ensures r.Ok? ==>
                && r.value.id == Some(id)
                && exists t :: t in contentTypeService.contentTypes && t.id == id && r.value == ToDisplay(t)
    {
      var ct := contentTypeService.GetContentType(id);
      if ct.None? {
        return NotFound;
      }
      r := Ok(ToDisplay(ct.value));
    }

    /** `GetEmpty`: the view of a new, unsaved type placed under the root; a
        submission of it is a create. */
    method GetEmpty() returns (d: ContentTypeDisplay)
      ensures !IsUpdate(d) && d.parentId == RootId
      ensures d.alias == "" && d.name == None && d.description == None
      ensures !d.allowedAsRoot && d.allowedChildIds == []
    {
      var ct := NewContentType(-1);
      d := ToDisplay(ct);
    }

    /** `GetAll`: every stored type, in store order, with its name and
        description translated. */
    method GetAll() returns (r: seq<ContentTypeBasic>)
      requires Valid()
      modifies this
      ensures Valid() && DictionaryKept()
      ensures r == TranslateAll(ToBasics(contentTypeService.contentTypes), old(ActiveDictionary()))
    {
      var types := contentTypeService.GetAllContentTypes();
      var basics := new ContentTypeBasic[|types|](i requires 0 <= i < |types| => ToBasic(types[i]));
      assert basics[..] == ToBasics(types);
      TranslateInPlace(basics);
      r := basics[..];
    }

    /** `GetAllowedChildren`: the translated list entries of the types allowed
        under `contentId`; the recycle bin answers without reading anything. */
    method GetAllowedChildren(contentId: int) returns (r: Response<seq<ContentTypeBasic>>)
      requires Valid()
      modifies this
      ensures Valid() && DictionaryKept()
      ensures contentId == RecycleBinContentId ==> r == Ok([]) && unchanged(this)
      ensures var allowed := AllowedChildTypes(contentId, contentTypeService.contentTypes, contentService.items);
              r == if allowed.NotFound? then NotFound
                   else Ok(TranslateAll(ToBasics(allowed.value), old(ActiveDictionary())))
    {
      if contentId == RecycleBinContentId {
        return Ok([]);
      }
      var types: seq<ContentType>;
      if contentId == RootId {
        types := contentTypeService.GetAllContentTypes();
        if AnyAllowedAsRoot(types) {
          types := WhereAllowedAsRoot(types);
        }
      } else {
        var contentItem := contentService.GetById(contentId);
        if contentItem.None? {
          return NotFound;
        }
        var ids := contentItem.value.contentType.allowedChildIds;
        if ids == [] {
          return Ok([]);
        }
        types := contentTypeService.GetAllContentTypesByIds(ids);
      }
      var basics := new ContentTypeBasic[|types|](i requires 0 <= i < |types| => ToBasic(types[i]));
      assert basics[..] == ToBasics(types);
      TranslateInPlace(basics);
      r := Ok(basics[..]);
    }

    /** `PostSave`: a positive id updates the stored type with that id (NotFound
        when there is none, and nothing is saved); any other id creates a new
        type, deriving an empty alias from the name. The answer is the view of
        what is now stored. */
    method PostSave(contentType: ContentTypeDisplay, toSafeAlias: Option<string> -> string)
      returns (r: Response<ContentTypeDisplay>)
      requires Valid()
      modifies contentTypeService
      ensures Valid()
      ensures IsUpdate(contentType) && old(contentTypeService.GetContentType(ToInt32(contentType.id))).None? ==>
                r == NotFound && unchanged(contentTypeService)
      ensures IsUpdate(contentType) && old(contentTypeService.GetContentType(ToInt32(contentType.id))).Some? ==>
                var found := old(contentTypeService.GetContentType(ToInt32(contentType.id))).value;
                && contentTypeService.contentTypes == Replace(old(contentTypeService.contentTypes), MergeOnto(contentType, found))
                && contentTypeService.nextId == old(contentTypeService.nextId)
                && r == Ok(contentType)
      ensures !IsUpdate(contentType) ==>
                var prepared := PrepareCreate(contentType, toSafeAlias);
                var newId := old(contentTypeService.nextId);
                && contentTypeService.contentTypes == old(contentTypeService.contentTypes) + [NewFromDisplay(prepared).(id := newId)]
                && contentTypeService.nextId == newId + 1
                && r == Ok(prepared.(id := Some(newId)))
      ensures r.Ok? ==>
                && r.value.id.Some? && r.value.id.value > 0
                && contentTypeService.GetContentType(r.value.id.value).Some?
                && ToDisplay(contentTypeService.GetContentType(r.value.id.value).value) == r.value
    {
      var ctId := ToInt32(contentType.id);
      if ctId > 0 {
        var found := contentTypeService.GetContentType(ctId);
        if found.None? {
          return NotFound;
        }
        var merged := MergeOnto(contentType, found.value);
        var saved := contentTypeService.Save(merged);
        UpdateRoundTrip(contentType, found.value);
        r := Ok(ToDisplay(saved));
      } else {
        var submitted := contentType;
        if submitted.alias == "" {
          submitted := submitted.(alias := toSafeAlias(submitted.name));
        }
        submitted := submitted.(id := None);
        var newCt := NewFromDisplay(submitted);
        var saved := contentTypeService.Save(newCt);
        CreateRoundTrip(submitted, saved.id);
        r := Ok(ToDisplay(saved));
      }
    }
  }
}
