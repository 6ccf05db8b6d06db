/** Which content types may be created under a placement context: the
    recycle bin, the virtual root, or an existing content item. */
module Placement {
  import opened Responses
  import opened ContentTypes

  /** `Constants.System.Root`: the virtual root of the content tree. */
  const RootId: int := -1

  /** `Constants.System.RecycleBinContent`: the content recycle bin. */
  const RecycleBinContentId: int := -20

  /** `a` is `b` with some elements left out, the rest in the same order. */
  predicate IsSubsequence<T(==)>(a: seq<T>, b: seq<T>)
    decreases |b|
  {
    if a == [] then true
    else if b == [] then false
    else if a[0] == b[0] then IsSubsequence(a[1..], b[1..])
    else IsSubsequence(a, b[1..])
  }

  /** `types.Any(x => x.AllowedAsRoot)`. */
  function AnyAllowedAsRoot(types: seq<ContentType>): (b: bool)
    ensures b <==> exists i :: 0 <= i < |types| && types[i].allowedAsRoot
  {
    if types == [] then false else types[0].allowedAsRoot || AnyAllowedAsRoot(types[1..])
  }

  /** `types.Where(x => x.AllowedAsRoot)`: exactly the root-eligible types, in
      store order. */
  function WhereAllowedAsRoot(types: seq<ContentType>): (r: seq<ContentType>)
    ensures forall t :: t in r <==> t in types && t.allowedAsRoot
    ensures forall t :: multiset(r)[t] == if t.allowedAsRoot then multiset(types)[t] else 0
    ensures IsSubsequence(r, types)
  {
    if types == [] then []
    else
      assert types == [types[0]] + types[1..];
      assert multiset(types) == multiset{types[0]} + multiset(types[1..]);
      if types[0].allowedAsRoot then
        var rest := WhereAllowedAsRoot(types[1..]);
        assert ([types[0]] + rest)[1..] == rest;
        assert multiset([types[0]] + rest) == multiset{types[0]} + multiset(rest);
        [types[0]] + rest
      else
        var rest := WhereAllowedAsRoot(types[1..]);
        assert rest != [] ==> rest[0] in rest;
        rest
  }

  /** The types allowed at the root: those flagged `AllowedAsRoot`, or every
      type when none is flagged. */
  function RootTypes(types: seq<ContentType>): (r: seq<ContentType>)
    ensures (exists i :: 0 <= i < |types| && types[i].allowedAsRoot) ==>
              && (forall t :: t in r <==> t in types && t.allowedAsRoot)
              && (forall t :: multiset(r)[t] == if t.allowedAsRoot then multiset(types)[t] else 0)
              && IsSubsequence(r, types)
    ensures (forall i :: 0 <= i < |types| ==> !types[i].allowedAsRoot) ==> r == types
  {
    if AnyAllowedAsRoot(types) then WhereAllowedAsRoot(types) else types
  }

  /** The allowed child types of the placement context `contentId`
      (`GetAllowedChildren` before mapping and translation). */
  function AllowedChildTypes(contentId: int, types: seq<ContentType>, items: map<int, ContentItem>)
    : (r: Response<seq<ContentType>>)
    ensures contentId == RecycleBinContentId ==> r == Ok([])
    ensures contentId == RootId ==> r == Ok(RootTypes(types))
    ensures contentId != RecycleBinContentId && contentId != RootId ==>
              (r.NotFound? <==> contentId !in items)
    ensures contentId != RecycleBinContentId && contentId != RootId && contentId in items ==>
              var ids := items[contentId].contentType.allowedChildIds;
              (ids == [] ==> r == Ok([])) &&
              (r.Ok? ==> forall t :: t in r.value ==> t in types && t.id in ids)
  {
    if contentId == RecycleBinContentId then Ok([])
    else if contentId == RootId then Ok(RootTypes(types))
    else if contentId !in items then NotFound
    else
      var ids := items[contentId].contentType.allowedChildIds;
      if ids == [] then Ok([]) else Ok(ContentTypesByIds(types, ids))
  }

  /** Every type offered for a placement is a stored type that the rule
      permits there: at the root it is flagged `AllowedAsRoot` unless no type
      is; under an item it is listed among the item type's allowed children;
      in the recycle bin nothing is offered. */
  lemma PlacementIsSound(contentId: int, types: seq<ContentType>, items: map<int, ContentItem>, t: ContentType)
    requires AllowedChildTypes(contentId, types, items).Ok?
    requires t in AllowedChildTypes(contentId, types, items).value
    ensures t in types
    ensures contentId != RecycleBinContentId
    ensures contentId == RootId ==>
              t.allowedAsRoot || forall i :: 0 <= i < |types| ==> !types[i].allowedAsRoot
    ensures contentId != RootId ==>
              contentId in items && t.id in items[contentId].contentType.allowedChildIds
  {
    if contentId == RootId && exists i :: 0 <= i < |types| && types[i].allowedAsRoot {
      assert t in RootTypes(types);
    }
  }

  /** Under an item whose type lists stored ids, the offered types are exactly
      the types for those ids, in the listed order. */
  lemma {:induction false} ItemPlacementExact(contentId: int, types: seq<ContentType>, items: map<int, ContentItem>)
    requires contentId != RecycleBinContentId && contentId != RootId && contentId in items
    requires var ids := items[contentId].contentType.allowedChildIds;
             forall i :: 0 <= i < |ids| ==> Find(types, ids[i]).Some?
    ensures var ids := items[contentId].contentType.allowedChildIds;
            var r := AllowedChildTypes(contentId, types, items);
            r.Ok? && |r.value| == |ids| &&
            forall i :: 0 <= i < |ids| ==> r.value[i] in types && r.value[i].id == ids[i]
  {
    var ids := items[contentId].contentType.allowedChildIds;
    ContentTypesByIdsInOrder(types, ids);
  }

  /** With no type flagged `AllowedAsRoot`, the root offers every stored type
      in store order; otherwise it offers fewer types only by leaving out
      unflagged ones. */
  lemma RootFallback(types: seq<ContentType>, items: map<int, ContentItem>)
    ensures (forall i :: 0 <= i < |types| ==> !types[i].allowedAsRoot) ==>
              AllowedChildTypes(RootId, types, items) == Ok(types)
    ensures IsSubsequence(AllowedChildTypes(RootId, types, items).value, types)
  {
    if forall i :: 0 <= i < |types| ==> !types[i].allowedAsRoot {
      SubsequenceReflexive(types);
    }
  }

  /** Every sequence is a subsequence of itself. */
  lemma {:induction false} SubsequenceReflexive<T>(s: seq<T>)
    ensures IsSubsequence(s, s)
  {
    if s != [] {
      SubsequenceReflexive(s[1..]);
    }
  }
}
